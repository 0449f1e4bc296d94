/**
 * The pulse-capture protocol of main/rmt_pulse_monitor/rmt_pulse_monitor.c as a state machine. Two arming tasks, the
 * receive-done interrupt and the decode task interleave at every point where another of them can run; in particular the
 * lock-protected sections are split wherever the interrupt, which takes no lock, can fire.
 *
 * Environment: rmt_disable() ends a receive in flight, a failed rmt_receive() does not touch the buffer, and sequence
 * numbers do not wrap.
 */
module PulseMonitor {
  import opened Ws2812
  import opened PulseDecode

  datatype Option<+T> = None | Some(value: T)

  // Published measurements.

  datatype MeasurementState = MeasuredDone | TimedOut | CountError | NotMeasured | ReadDone

  datatype Measurement = Measurement(submit: nat, state: MeasurementState, bit0High: nat, bit1High: nat,
                                     matchCount: nat, matchAvailable: bool, bit0Period: nat, bit1Period: nat)

  function Blank(submit: nat, state: MeasurementState): Measurement {
    Measurement(submit, state, 0, 0, 0, false, 0, 0)
  }

  function MeasureSend(submit: nat, f: Frame, t: Timing, p: Pixels): Measurement {
    if |f| != DATA_SYMBOLS then Blank(submit, CountError)
    else var s := SpecStats(f, t, p);
         Measurement(submit, MeasuredDone, s.bit0.avg, s.bit1.avg, s.matchCount, s.matchAvailable, 0, 0)
  }

  function MeasureRead(submit: nat, f: Frame): Measurement {
    var a := SpecRead(f);
    if !a.isValid then Blank(submit, CountError)
    else Measurement(submit, ReadDone, a.stats.bit0.highAvg, a.stats.bit1.highAvg, 0, false,
                     a.stats.bit0.periodAvg, a.stats.bit1.periodAvg)
  }

  datatype Request = SendRequest(submit: nat, timing: Timing, pixels: Pixels) | ReadRequest(submit: nat)

  /** What a capture delivering frame `f` for request `r` must publish. */
  function MeasurementOf(r: Request, f: Frame): Measurement {
    match r
    case SendRequest(submit, t, p) => MeasureSend(submit, f, t, p)
    case ReadRequest(submit) => MeasureRead(submit, f)
  }

  // Shared state.

  datatype Mode = Send | Read

  /** The armed snapshot, and the decode task's private copy of it. */
  datatype Snapshot = Snapshot(submit: nat, mode: Mode, timing: Timing, pixelBuffer: Pixels, pixelLen: nat)

  datatype DoneEvent = DoneEvent(count: nat, tag: nat)

  datatype Who = Led | Orchestrator

  datatype Owner = Free | Caller(who: Who) | DecodeTask

  /** An arming task, as seen from outside the lock-protected section. */
  datatype CallerPc =
    | CallerIdle
    | Entered(req: Request)        // about to take the lock with zero timeout
    | Inside                       // holds the lock
    | Rejecting(req: Request)      // about to publish not_measured

  /** Program point of the caller that holds the lock. */
  datatype Section =
    | Outside
    | Locked(req: Request)         // about to look at the pending flag
    | Tagging(req: Request)        // about to write the ISR tag
    | Marking(req: Request)        // about to set the pending flag
    | Starting(req: Request)       // about to call rmt_receive()
    | Reenabling(req: Request)     // rmt_receive() reported an invalid state
    | Retrying(req: Request)       // re-enabled, about to call rmt_receive() again
    | Untagging(req: Request)      // failed, about to restore the tag
    | Unmarking(req: Request)      // about to clear the pending flag
    | Failing(req: Request)        // about to give the lock
    | Armed(req: Request)          // the receive runs, about to write the snapshot
    | Signalling                   // about to give the armed semaphore
    | Releasing                    // about to give the lock

  datatype Wait = Wait(arm: nat, submit: nat, mode: Mode)

  datatype DecodePc =
    | Blocked                                       // on the armed semaphore
    | Woken                                         // about to take the lock
    | ReadingSeq
    | Waiting(wait: Wait)                           // on the event queue
    | GotEvent(wait: Wait, event: DoneEvent)        // about to take the lock
    | Comparing(wait: Wait, event: DoneEvent)
    | Expired(wait: Wait)                           // about to take the lock
    | Restarting(wait: Wait)
    | Disabling(wait: Wait)
    | Enabling(wait: Wait)
    | Freeing(wait: Wait)
    | PublishingTimeout(wait: Wait)
    | PublishingCapture(arm: nat, count: nat)       // `arm` is history: the decoded arm

  /** Receive channel: ISR tag, pending flag, driver state and the arm whose receive runs. */
  datatype Channel = Channel(captureSeq: nat, isReceivePending: bool, isEnabled: bool, inFlight: Option<nat>)

  datatype Copies = Copies(symbols: Frame, snapshot: Snapshot)

  datatype Outcome = Outcome(arm: nat, m: Measurement)

  /** History: every successful arm in order, the frame each receive delivered, every outcome published for an arm. */
  datatype History = History(arms: seq<Request>, frames: map<nat, Frame>, outcomes: seq<Outcome>)

  datatype State = State(
    isStarted: bool, armedSeq: nat, armed: Snapshot, rx: Channel, buffer: Frame,
    queue: Option<DoneEvent>, isSignalled: bool, lock: Owner,
    led: CallerPc, orchestrator: CallerPc, section: Section, decode: DecodePc, copies: Copies, history: History)

  function Pc(s: State, who: Who): CallerPc { if who.Led? then s.led else s.orchestrator }

  function At(s: State, who: Who, pc: CallerPc): State {
    if who.Led? then s.(led := pc) else s.(orchestrator := pc)
  }

  // Entry and exit of ArmPulseCapture() and ArmPulseRead().

  predicate IsAcceptable(s: State, r: Request) {
    s.isStarted && (r.SendRequest? ==> |r.pixels| <= PIXEL_BYTES)
  }

  predicate Enter(s: State, who: Who, r: Request, s': State) {
    Pc(s, who).CallerIdle? && s' == At(s, who, if IsAcceptable(s, r) then Entered(r) else Rejecting(r))
  }

  predicate TakeLock(s: State, who: Who, s': State) {
    Pc(s, who).Entered? && s.lock.Free?
        && s' == At(s, who, Inside).(lock := Caller(who), section := Locked(Pc(s, who).req))
  }

  predicate FindLockBusy(s: State, who: Who, s': State) {
    Pc(s, who).Entered? && !s.lock.Free? && s' == At(s, who, Rejecting(Pc(s, who).req))
  }

  predicate GiveUp(s: State, who: Who, s': State) {
    && s.section.Failing? && s.lock == Caller(who)
    && s' == At(s, who, Rejecting(s.section.req)).(lock := Free, section := Outside)
  }

  predicate GiveLock(s: State, who: Who, s': State) {
    && s.section.Releasing? && s.lock == Caller(who)
    && s' == At(s, who, CallerIdle).(lock := Free, section := Outside)
  }

  predicate PublishRejection(s: State, who: Who, m: Measurement, s': State) {
    && Pc(s, who).Rejecting? && m == Blank(Pc(s, who).req.submit, NotMeasured)
    && s' == At(s, who, CallerIdle)
  }

  // StartTaggedReceive() and the rest of the lock-protected section.

  predicate CheckPending(s: State, s': State) {
    && s.section.Locked?
    && s' == s.(section := if s.rx.isReceivePending then Failing(s.section.req) else Tagging(s.section.req))
  }

  predicate WriteTag(s: State, s': State) {
    s.section.Tagging? && s' == s.(section := Marking(s.section.req), rx := s.rx.(captureSeq := s.armedSeq + 1))
  }

  predicate MarkPending(s: State, s': State) {
    s.section.Marking? && s' == s.(section := Starting(s.section.req), rx := s.rx.(isReceivePending := true))
  }

  /** rmt_receive(): only an enabled, idle channel can start a receive. */
  predicate ReceiveStarts(s: State, s': State) {
    && (s.section.Starting? || s.section.Retrying?) && s.rx.isEnabled && s.rx.inFlight.None?
    && s' == s.(section := Armed(s.section.req), rx := s.rx.(inFlight := Some(s.armedSeq + 1)))
  }

  predicate ReceiveFails(s: State, isInvalidState: bool, s': State) {
    && (s.section.Starting? || s.section.Retrying?)
    && s' == s.(section := if isInvalidState && s.section.Starting? then Reenabling(s.section.req)
                           else Untagging(s.section.req))
  }

  predicate Reenable(s: State, ok: bool, s': State) {
    && s.section.Reenabling?
    && s' == s.(section := if ok then Retrying(s.section.req) else Untagging(s.section.req),
                rx := s.rx.(isEnabled := s.rx.isEnabled || ok))
  }

  predicate RestoreTag(s: State, s': State) {
    s.section.Untagging? && s' == s.(section := Unmarking(s.section.req), rx := s.rx.(captureSeq := s.armedSeq))
  }

  predicate ClearPending(s: State, s': State) {
    s.section.Unmarking? && s' == s.(section := Failing(s.section.req), rx := s.rx.(isReceivePending := false))
  }

  predicate StoreSnapshot(s: State, s': State) {
    && s.section.Armed?
    && s' == s.(section := Signalling, armed := SnapshotOf(s.armed, s.section.req), armedSeq := s.armedSeq + 1,
                history := s.history.(arms := s.history.arms + [s.section.req]))
  }

  predicate GiveSignal(s: State, s': State) {
    s.section.Signalling? && s' == s.(section := Releasing, isSignalled := true)
  }

  /** memcpy() of `data` over the beginning of `target`. */
  function Overwrite(target: Pixels, data: Pixels): Pixels {
    if |data| <= |target| then data + target[|data|..] else data
  }

  function SnapshotOf(before: Snapshot, r: Request): Snapshot {
    match r
    case SendRequest(submit, t, p) => Snapshot(submit, Send, t, Overwrite(before.pixelBuffer, p), |p|)
    case ReadRequest(submit) => before.(submit := submit, mode := Read)
  }

  // The receiver hardware and its done interrupt, HandleRxDone().

  predicate FillBuffer(s: State, content: Frame, s': State) {
    s.rx.inFlight.Some? && |content| == DATA_SYMBOLS && s' == s.(buffer := content)
  }

  predicate FinishReceive(s: State, frame: Frame, content: Frame, s': State) {
    && s.rx.inFlight.Some? && |frame| <= DATA_SYMBOLS == |content| && frame <= content
    && s' == s.(buffer := content, queue := Some(DoneEvent(|frame|, s.rx.captureSeq)),
                rx := s.rx.(inFlight := None, isReceivePending := false),
                history := s.history.(frames := s.history.frames[s.rx.inFlight.value := frame]))
  }

  // RunPulseDecodeTask(), TakeCurrentCapture() and RestartRxChannel().

  function LatestWait(s: State): Wait { Wait(s.armedSeq, s.armed.submit, s.armed.mode) }

  predicate TakeSignal(s: State, s': State) {
    s.isStarted && s.decode.Blocked? && s.isSignalled && s' == s.(decode := Woken, isSignalled := false)
  }

  predicate LockForSeq(s: State, s': State) {
    s.decode.Woken? && s.lock.Free? && s' == s.(decode := ReadingSeq, lock := DecodeTask)
  }

  predicate ReadSeq(s: State, s': State) {
    s.decode.ReadingSeq? && s' == s.(decode := Waiting(LatestWait(s)), lock := Free)
  }

  predicate ReceiveEvent(s: State, s': State) {
    && s.decode.Waiting? && s.queue.Some?
    && s' == s.(decode := GotEvent(s.decode.wait, s.queue.value), queue := None)
  }

  predicate ExpireWait(s: State, s': State) {
    s.decode.Waiting? && s.queue.None? && s' == s.(decode := Expired(s.decode.wait))
  }

  predicate LockForCompare(s: State, s': State) {
    && s.decode.GotEvent? && s.lock.Free?
    && s' == s.(decode := Comparing(s.decode.wait, s.decode.event), lock := DecodeTask)
  }

  /** A current event: copy everything, consume the arm signal. */
  predicate TakeCapture(s: State, s': State) {
    && s.decode.Comparing? && s.decode.event.tag == s.armedSeq
    && s' == s.(decode := PublishingCapture(s.armedSeq, s.decode.event.count),
                copies := Copies(s.buffer, CopyOf(s.copies.snapshot, s.armed)), isSignalled := false, lock := Free)
  }

  /** A stale event: move the wait on to the latest arm. */
  predicate DropStale(s: State, s': State) {
    && s.decode.Comparing? && s.decode.event.tag != s.armedSeq
    && s' == s.(decode := Waiting(LatestWait(s)), lock := Free)
  }

  // Only the used bytes of the pixel buffer are copied.
  function CopyOf(before: Snapshot, armed: Snapshot): Snapshot {
    if armed.pixelLen <= |armed.pixelBuffer|
    then armed.(pixelBuffer := Overwrite(before.pixelBuffer, armed.pixelBuffer[..armed.pixelLen]))
    else armed
  }

  predicate LockForRestart(s: State, s': State) {
    s.decode.Expired? && s.lock.Free? && s' == s.(decode := Restarting(s.decode.wait), lock := DecodeTask)
  }

  predicate SkipRestart(s: State, s': State) {
    && s.decode.Restarting? && s.armedSeq != s.decode.wait.arm
    && s' == s.(decode := PublishingTimeout(s.decode.wait), lock := Free)
  }

  predicate BeginRestart(s: State, s': State) {
    && s.decode.Restarting? && s.armedSeq == s.decode.wait.arm
    && s' == s.(decode := Disabling(s.decode.wait), isSignalled := false)
  }

  predicate Disable(s: State, ok: bool, s': State) {
    && s.decode.Disabling?
    && s' == s.(decode := if ok then Enabling(s.decode.wait) else Freeing(s.decode.wait),
                rx := s.rx.(inFlight := None, isEnabled := s.rx.isEnabled && !ok))
  }

  predicate Enable(s: State, ok: bool, s': State) {
    && s.decode.Enabling?
    && s' == s.(decode := Freeing(s.decode.wait), rx := s.rx.(isEnabled := s.rx.isEnabled || ok))
  }

  predicate FreeChannel(s: State, s': State) {
    && s.decode.Freeing?
    && s' == s.(decode := PublishingTimeout(s.decode.wait), rx := s.rx.(isReceivePending := false), lock := Free)
  }

  function Log(h: History, arm: nat, m: Measurement): History {
    h.(outcomes := h.outcomes + [Outcome(arm, m)])
  }

  predicate PublishTimeout(s: State, m: Measurement, s': State) {
    && s.decode.PublishingTimeout? && m == Blank(s.decode.wait.submit, TimedOut)
    && s' == s.(decode := Blocked, history := Log(s.history, s.decode.wait.arm, m))
  }

  /** The measurement the decode task makes of its private copies. */
  function MeasureCopy(c: Copies, count: nat): Measurement {
    var d := c.snapshot;
    if d.mode.Read? then MeasureRead(d.submit, if count <= |c.symbols| then c.symbols[..count] else c.symbols)
    else if count != DATA_SYMBOLS || d.pixelLen > |d.pixelBuffer| then Blank(d.submit, CountError)
    else MeasureSend(d.submit, c.symbols, d.timing, d.pixelBuffer[..d.pixelLen])
  }

  predicate PublishCapture(s: State, m: Measurement, s': State) {
    && s.decode.PublishingCapture? && m == MeasureCopy(s.copies, s.decode.count)
    && s' == s.(decode := Blocked, history := Log(s.history, s.decode.arm, m))
  }

  // One step of any task or of the hardware.

  datatype Event = Call(who: Who, req: Request) | Publish(m: Measurement) | Internal

  /** Steps of StartTaggedReceive() up to the receive. */
  predicate StartStep(s: State, s': State) {
    || CheckPending(s, s') || WriteTag(s, s') || MarkPending(s, s') || ReceiveStarts(s, s')
    || ReceiveFails(s, false, s') || ReceiveFails(s, true, s')
  }

  /** The retry, the clean-up of a failed start, and the signal after a successful one. */
  predicate FinishStep(s: State, s': State) {
    || Reenable(s, false, s') || Reenable(s, true, s') || RestoreTag(s, s') || ClearPending(s, s') || GiveSignal(s, s')
  }

  predicate LockStep(s: State, who: Who, s': State) {
    GiveUp(s, who, s') || GiveLock(s, who, s') || TakeLock(s, who, s') || FindLockBusy(s, who, s')
  }

  ghost predicate HardwareStep(s: State, s': State) {
    || (exists content :: FillBuffer(s, content, s'))
    || (exists frame, content :: FinishReceive(s, frame, content, s'))
  }

  predicate WaitStep(s: State, s': State) {
    || TakeSignal(s, s') || LockForSeq(s, s') || ReadSeq(s, s') || ReceiveEvent(s, s') || ExpireWait(s, s')
    || LockForCompare(s, s') || TakeCapture(s, s') || DropStale(s, s')
  }

  predicate RestartStep(s: State, s': State) {
    || LockForRestart(s, s') || SkipRestart(s, s') || BeginRestart(s, s') || Disable(s, false, s')
    || Disable(s, true, s') || Enable(s, false, s') || Enable(s, true, s') || FreeChannel(s, s')
  }

  predicate PublishStep(s: State, m: Measurement, s': State) {
    || PublishRejection(s, Led, m, s') || PublishRejection(s, Orchestrator, m, s')
    || PublishTimeout(s, m, s') || PublishCapture(s, m, s')
  }

  ghost predicate Next(s: State, e: Event, s': State) {
    match e
    case Call(who, r) => Enter(s, who, r, s')
    case Publish(m) => PublishStep(s, m, s')
    case Internal =>
      || LockStep(s, Led, s') || LockStep(s, Orchestrator, s') || StartStep(s, s') || StoreSnapshot(s, s')
      || FinishStep(s, s') || HardwareStep(s, s') || WaitStep(s, s') || RestartStep(s, s')
  }

  predicate Init(s: State) {
    && s.armedSeq == s.rx.captureSeq == 0 && !s.rx.isReceivePending && s.rx.inFlight.None?
    && |s.buffer| == |s.copies.symbols| == DATA_SYMBOLS
    && |s.armed.pixelBuffer| == |s.copies.snapshot.pixelBuffer| == PIXEL_BYTES
    && s.armed.pixelLen == s.copies.snapshot.pixelLen == 0
    && s.queue.None? && !s.isSignalled && s.lock.Free?
    && s.led.CallerIdle? && s.orchestrator.CallerIdle? && s.section.Outside? && s.decode.Blocked?
    && s.history == History([], map[], [])
  }
}
