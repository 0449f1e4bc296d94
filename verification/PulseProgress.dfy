/**
 * Progress of the pulse-capture protocol: whoever holds the lock gives it back after a bounded number of its own steps,
 * and the decode task comes to rest after a bounded number of its own steps for each successful arm. At rest no receive
 * is pending (PulseSafety.NoLostWakeUp), so arming cannot stay blocked.
 */
module PulseProgress {
  import opened PulseMonitor
  import opened PulseSafety

  // The lock-protected section.

  /** Steps the section can still take before the lock is given back. */
  function SectionRank(p: Section): nat {
    match p
    case Outside => 0
    case Releasing => 1
    case Signalling => 2
    case Armed(_) => 3
    case Failing(_) => 4
    case Unmarking(_) => 5
    case Untagging(_) => 6
    case Retrying(_) => 7
    case Reenabling(_) => 8
    case Starting(_) => 9
    case Marking(_) => 10
    case Tagging(_) => 11
    case Locked(_) => 12
  }

  predicate SectionStep(s: State, s': State) {
    || StartStep(s, s') || StoreSnapshot(s, s') || FinishStep(s, s')
    || GiveUp(s, Led, s') || GiveUp(s, Orchestrator, s') || GiveLock(s, Led, s') || GiveLock(s, Orchestrator, s')
  }

  /** A step of the section brings it nearer to its end; at the end the lock is free. */
  lemma SectionAdvances(s: State, s': State)
    requires SectionStep(s, s')
    ensures SectionRank(s'.section) < SectionRank(s.section)
    ensures s'.section.Outside? ==> s'.lock.Free?
  {
    hide StartStep; hide FinishStep;
    if StartStep(s, s') {
      StartAdvances(s, s');
    } else if FinishStep(s, s') {
      FinishAdvances(s, s');
    }
  }

  lemma StartAdvances(s: State, s': State)
    requires StartStep(s, s')
    ensures SectionRank(s'.section) < SectionRank(s.section) && !s'.section.Outside?
  {
  }

  lemma FinishAdvances(s: State, s': State)
    requires FinishStep(s, s')
    ensures SectionRank(s'.section) < SectionRank(s.section) && !s'.section.Outside?
  {
  }

  /** The task that holds the lock always has a next step, whatever the hardware answers. */
  lemma SectionCanMove(s: State) returns (s': State)
    requires LockInv(s) && s.lock.Caller?
    ensures SectionStep(s, s')
  {
    var p, who := s.section, s.lock.who;
    match p
    case Locked(r) => s' := s.(section := if s.rx.isReceivePending then Failing(r) else Tagging(r));
    case Tagging(r) => s' := s.(section := Marking(r), rx := s.rx.(captureSeq := s.armedSeq + 1));
    case Marking(r) => s' := s.(section := Starting(r), rx := s.rx.(isReceivePending := true));
    case Starting(r) => s' := s.(section := Untagging(r)); assert ReceiveFails(s, false, s');
    case Reenabling(r) => s' := s.(section := Untagging(r)); assert Reenable(s, false, s');
    case Retrying(r) => s' := s.(section := Untagging(r)); assert ReceiveFails(s, false, s');
    case Untagging(r) => s' := s.(section := Unmarking(r), rx := s.rx.(captureSeq := s.armedSeq));
    case Unmarking(r) => s' := s.(section := Failing(r), rx := s.rx.(isReceivePending := false));
    case Failing(r) => s' := At(s, who, Rejecting(r)).(lock := Free, section := Outside); assert GiveUp(s, who, s');
    case Armed(r) =>
      s' := s.(section := Signalling, armed := SnapshotOf(s.armed, r), armedSeq := s.armedSeq + 1,
               history := s.history.(arms := s.history.arms + [r]));
    case Signalling => s' := s.(section := Releasing, isSignalled := true);
    case Releasing => s' := At(s, who, CallerIdle).(lock := Free, section := Outside); assert GiveLock(s, who, s');
    case Outside => assert false;
  }

  // The decode task.

  /** A done event of an arm that is no longer the latest. */
  predicate IsStale(e: DoneEvent, armedSeq: nat) { e.tag < armedSeq }

  function StaleCost(e: DoneEvent, armedSeq: nat): nat { if IsStale(e, armedSeq) then 3 else 0 }

  function QueueCost(queue: Option<DoneEvent>, armedSeq: nat): nat {
    if queue.Some? then StaleCost(queue.value, armedSeq) else 0
  }

  function PcCost(d: DecodePc, armedSeq: nat): nat {
    match d
    case Blocked => 0
    case PublishingTimeout(_) => 1
    case PublishingCapture(_, _) => 1
    case Freeing(_) => 2
    case Enabling(_) => 3
    case Disabling(_) => 4
    case Restarting(_) => 5
    case Expired(_) => 6
    case Comparing(_, e) => 7 + StaleCost(e, armedSeq)
    case GotEvent(_, e) => 8 + StaleCost(e, armedSeq)
    case Waiting(_) => 9
    case ReadingSeq => 10
    case Woken => 11
  }

  /** Steps the decode task can still take before it rests, if no task arms meanwhile. */
  function DecodeRank(s: State): nat {
    PcCost(s.decode, s.armedSeq) + QueueCost(s.queue, s.armedSeq) + if s.isSignalled then 12 else 0
  }

  ghost predicate DecodeStep(s: State, s': State) {
    WaitStep(s, s') || RestartStep(s, s') || exists m :: PublishTimeout(s, m, s') || PublishCapture(s, m, s')
  }

  /** Every step of the decode task brings it nearer to rest. */
  lemma DecodeAdvances(s: State, s': State)
    requires Inv(s) && DecodeStep(s, s')
    ensures DecodeRank(s') < DecodeRank(s)
  {
    hide LockInv; hide FrameInv; hide EventInv; hide WaitStep; hide RestartStep; hide DecodeRank; hide PublishTimeout;
    hide PublishCapture; hide ArmInv; hide ChannelInv; hide CopyInv; hide QuietInv; hide WakeInv; hide LogInv;
    hide ClaimInv;
    if WaitStep(s, s') {
      WaitAdvances(s, s');
    } else if RestartStep(s, s') {
      RestartAdvances(s, s');
    } else {
      var m :| PublishTimeout(s, m, s') || PublishCapture(s, m, s');
      PublishAdvances(s, m, s');
    }
  }

  lemma RestartAdvances(s: State, s': State)
    requires RestartStep(s, s')
    ensures DecodeRank(s') < DecodeRank(s)
  {
    hide QueueCost; hide StaleCost;
    if s.decode.Expired? {
    } else if s.decode.Restarting? {
    } else if s.decode.Disabling? {
    } else {
      assert s.decode.Enabling? || s.decode.Freeing?;
    }
  }

  lemma PublishAdvances(s: State, m: Measurement, s': State)
    requires PublishTimeout(s, m, s') || PublishCapture(s, m, s')
    ensures DecodeRank(s') < DecodeRank(s)
  {
    hide MeasureCopy;
  }

  lemma WaitAdvances(s: State, s': State)
    requires LockInv(s) && FrameInv(s) && EventInv(s) && WaitStep(s, s')
    ensures DecodeRank(s') < DecodeRank(s)
  {
    hide CopyOf;
  }

  /** No step but a successful arm and its signal sets the decode task back. */
  lemma OthersKeepRank(s: State, e: Event, s': State)
    requires Inv(s) && Next(s, e, s') && !StoreSnapshot(s, s') && !GiveSignal(s, s')
    ensures DecodeRank(s') <= DecodeRank(s)
  {
    hide Inv; hide WaitStep; hide RestartStep; hide PublishStep; hide HardwareStep; hide LockStep; hide StartStep;
    hide FinishStep; hide Enter; hide StoreSnapshot; hide GiveSignal; hide DecodeRank; hide DecodeStep;
    match e
    case Call(who, r) => CallKeepsRank(s, who, r, s');
    case Publish(m) => PublishKeepsRank(s, m, s');
    case Internal => InternalKeepsRank(s, s');
  }

  lemma CallKeepsRank(s: State, who: Who, r: Request, s': State)
    requires Enter(s, who, r, s')
    ensures DecodeRank(s') == DecodeRank(s)
  {
  }

  lemma PublishKeepsRank(s: State, m: Measurement, s': State)
    requires PublishStep(s, m, s')
    ensures DecodeRank(s') <= DecodeRank(s)
  {
    hide MeasureCopy;
  }

  lemma InternalKeepsRank(s: State, s': State)
    requires Inv(s) && Next(s, Internal, s') && !StoreSnapshot(s, s') && !GiveSignal(s, s')
    ensures DecodeRank(s') <= DecodeRank(s)
  {
    hide Inv; hide WaitStep; hide RestartStep; hide HardwareStep; hide LockStep; hide StartStep; hide FinishStep;
    hide StoreSnapshot; hide GiveSignal; hide DecodeRank;
    if WaitStep(s, s') || RestartStep(s, s') {
      assert DecodeStep(s, s');
      DecodeAdvances(s, s');
    } else if HardwareStep(s, s') {
      HardwareKeepsRank(s, s');
    } else {
      SectionKeepsRank(s, s');
    }
  }

  /** The interrupt's event is never stale: its tag is that of the latest receive. */
  lemma HardwareKeepsRank(s: State, s': State)
    requires Inv(s) && HardwareStep(s, s')
    ensures DecodeRank(s') <= DecodeRank(s)
  {
    hide ArmInv; hide CopyInv; hide QuietInv; hide WakeInv; hide LogInv; hide FrameInv; hide EventInv; hide ClaimInv;
  }

  lemma SectionKeepsRank(s: State, s': State)
    requires LockStep(s, Led, s') || LockStep(s, Orchestrator, s') || StartStep(s, s') || FinishStep(s, s')
    requires !GiveSignal(s, s')
    ensures DecodeRank(s') == DecodeRank(s)
  {
    hide LockStep; hide StartStep; hide FinishStep; hide DecodeRank; hide GiveSignal;
    if StartStep(s, s') {
      StartKeepsRank(s, s');
    } else if FinishStep(s, s') {
      FinishKeepsRank(s, s');
    } else {
      LockKeepsRank(s, if LockStep(s, Led, s') then Led else Orchestrator, s');
    }
  }

  lemma StartKeepsRank(s: State, s': State)
    requires StartStep(s, s')
    ensures DecodeRank(s') == DecodeRank(s)
  {
    hide PcCost; hide QueueCost;
  }

  lemma FinishKeepsRank(s: State, s': State)
    requires FinishStep(s, s') && !GiveSignal(s, s')
    ensures DecodeRank(s') == DecodeRank(s)
  {
    hide PcCost; hide QueueCost;
  }

  lemma LockKeepsRank(s: State, who: Who, s': State)
    requires LockStep(s, who, s')
    ensures DecodeRank(s') == DecodeRank(s)
  {
    hide PcCost; hide QueueCost;
  }

  /** A successful arm and its signal set it back by a bounded number of steps. */
  lemma ArmCost(s: State, s': State)
    requires StoreSnapshot(s, s') || GiveSignal(s, s')
    ensures DecodeRank(s') <= DecodeRank(s) + 12
  {
  }

  /** A decode task that is not at rest has a next step whenever no arming task holds the lock. */
  lemma DecodeCanMove(s: State) returns (s': State)
    requires LockInv(s) && s.isStarted && !s.lock.Caller? && (!s.decode.Blocked? || s.isSignalled)
    ensures DecodeStep(s, s')
  {
    var d := s.decode;
    match d
    case Blocked => s' := s.(decode := Woken, isSignalled := false);
    case Woken => s' := s.(decode := ReadingSeq, lock := DecodeTask);
    case ReadingSeq => s' := s.(decode := Waiting(LatestWait(s)), lock := Free);
    case Waiting(w) =>
      s' := if s.queue.Some? then s.(decode := GotEvent(w, s.queue.value), queue := None) else s.(decode := Expired(w));
    case GotEvent(w, e) => s' := s.(decode := Comparing(w, e), lock := DecodeTask);
    case Comparing(w, e) =>
      s' := if e.tag == s.armedSeq
            then s.(decode := PublishingCapture(s.armedSeq, e.count),
                    copies := Copies(s.buffer, CopyOf(s.copies.snapshot, s.armed)), isSignalled := false, lock := Free)
            else s.(decode := Waiting(LatestWait(s)), lock := Free);
    case Expired(w) => s' := s.(decode := Restarting(w), lock := DecodeTask);
    case Restarting(w) =>
      s' := if s.armedSeq != w.arm then s.(decode := PublishingTimeout(w), lock := Free)
            else s.(decode := Disabling(w), isSignalled := false);
    case Disabling(w) =>
      s' := s.(decode := Freeing(w), rx := s.rx.(inFlight := None)); assert Disable(s, false, s');
    case Enabling(w) => s' := s.(decode := Freeing(w)); assert Enable(s, false, s');
    case Freeing(w) => s' := s.(decode := PublishingTimeout(w), rx := s.rx.(isReceivePending := false), lock := Free);
    case PublishingTimeout(w) =>
      var m := Blank(w.submit, TimedOut);
      s' := s.(decode := Blocked, history := Log(s.history, w.arm, m));
      assert PublishTimeout(s, m, s');
    case PublishingCapture(arm, count) =>
      var m := MeasureCopy(s.copies, count);
      s' := s.(decode := Blocked, history := Log(s.history, arm, m));
      assert PublishCapture(s, m, s');
  }

  /** At rest with the lock free, the next call to arm finds nothing pending. */
  lemma RestUnblocksArming(s: State)
    requires Inv(s) && s.lock.Free? && DecodeRank(s) == 0
    ensures s.decode.Blocked? && !s.isSignalled && !s.rx.isReceivePending
  {
    hide ArmInv; hide CopyInv; hide LogInv; hide FrameInv; hide EventInv;
  }
}
