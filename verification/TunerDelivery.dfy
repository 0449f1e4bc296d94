/**
 * A submission to a device at rest can always be measured and served, whatever its earlier runs left behind: the steps
 * of HTTP server, orchestrator, LED task, receiver and decode task lead to an answer with the values of the capture.
 */
module TunerDelivery {
  import opened Ws2812
  import opened PulseDecode
  import opened PulseMonitor
  import opened PulseSafety
  import opened PulseMeaning
  import opened TunerPipeline
  import opened TunerAnswers

  // Steps in a row.

  ghost predicate IsPath(xs: seq<System>) {
    xs != [] && forall i :: 0 <= i < |xs| - 1 ==> Step(xs[i], xs[i + 1])
  }

  ghost predicate Leads(x: System, y: System) {
    exists xs :: IsPath(xs) && xs[0] == x && xs[|xs| - 1] == y
  }

  lemma LeadsNowhere(x: System)
    ensures Leads(x, x)
  {
    assert IsPath([x]);
  }

  lemma LeadsOn(x: System, y: System, z: System)
    requires Leads(x, y) && Step(y, z)
    ensures Leads(x, z)
  {
    hide Step;
    var xs :| IsPath(xs) && xs[0] == x && xs[|xs| - 1] == y;
    var longer := xs + [z];
    forall i | 0 <= i < |longer| - 1 ensures Step(longer[i], longer[i + 1]) {
      assert i < |xs| - 1 ==> Step(xs[i], xs[i + 1]);
    }
    assert IsPath(longer);
  }

  /** An invariant state leads to invariant states only. */
  lemma LeadsInv(x: System, y: System)
    requires Leads(x, y) && SystemInv(x)
    ensures SystemInv(y)
  {
    hide SystemInv; hide Step;
    var xs :| IsPath(xs) && xs[0] == x && xs[|xs| - 1] == y;
    PathInv(xs, |xs| - 1);
  }

  lemma {:induction false} PathInv(xs: seq<System>, i: nat)
    requires IsPath(xs) && SystemInv(xs[0]) && i < |xs|
    ensures SystemInv(xs[i])
  {
    hide SystemInv; hide Step;
    if i > 0 {
      PathInv(xs, i - 1);
      SystemStepInv(xs[i - 1], xs[i]);
    }
  }

  lemma Within(x: System, y: System, pulse: State) returns (z: System)
    requires Leads(x, y) && Next(y.pulse, Internal, pulse)
    ensures z == y.(pulse := pulse) && Leads(x, z)
  {
    hide Leads; hide Next;
    z := y.(pulse := pulse);
    assert PulseInternal(y, z);
    LeadsOn(x, y, z);
  }

  ghost predicate IsServerStep(y: System, z: System) {
    (exists t :: IssueTiming(y, t, z)) || IssueRead(y, z)
  }

  ghost predicate IsTaskStep(y: System, z: System) {
    || ForwardTiming(y, z) || ForwardRead(y, z) || StoreResult(y, z) || DriveFrame(y, z)
    || (exists m :: PostResult(y, m, z))
  }

  lemma Onward(x: System, y: System, z: System)
    requires Leads(x, y) && (IsServerStep(y, z) || IsTaskStep(y, z))
    ensures Leads(x, z)
  {
    hide Leads; hide IssueTiming; hide IssueRead; hide ForwardTiming; hide ForwardRead; hide StoreResult;
    hide DriveFrame; hide PostResult; hide PulseInternal;
    LeadsOn(x, y, z);
  }

  lemma OnwardIssued(x: System, y: System, z: System, t: Timing)
    requires Leads(x, y) && IssueTiming(y, t, z)
    ensures Leads(x, z)
  {
    hide Leads; hide IssueTiming;
    Onward(x, y, z);
  }

  // The pulse monitor, from a call to the published capture.

  /** Nothing is armed, received or decoded; the channel may have been left disabled by a failed restart. */
  ghost predicate IsResting(s: State) {
    && s.isStarted && s.lock.Free? && s.section.Outside? && s.led.CallerIdle? && s.orchestrator.CallerIdle?
    && s.decode.Blocked? && !s.isSignalled && s.queue.None?
    && !s.rx.isReceivePending && s.rx.inFlight.None?
  }

  /** The state right after a successful arm whose receive is still running. */
  function ArmedWith(s: State, r: Request): State {
    s.(armed := SnapshotOf(s.armed, r), armedSeq := s.armedSeq + 1, isSignalled := true,
       rx := Channel(s.armedSeq + 1, true, true, Some(s.armedSeq + 1)),
       history := s.history.(arms := s.history.arms + [r]))
  }

  /** ArmPulseCapture() and ArmPulseRead() succeed at rest. */
  lemma TakesTheLock(x: System, y: System, s: State, who: Who, r: Request) returns (z: System)
    requires Leads(x, y) && IsResting(s) && y.pulse == At(s, who, Entered(r))
    ensures z == y.(pulse := At(s, who, Inside).(lock := Caller(who), section := Tagging(r))) && Leads(x, z)
  {
    hide Leads;
    assert TakeLock(y.pulse, who, At(s, who, Inside).(lock := Caller(who), section := Locked(r)));
    z := Within(x, y, At(s, who, Inside).(lock := Caller(who), section := Locked(r)));
    assert CheckPending(z.pulse, z.pulse.(section := Tagging(r)));
    z := Within(x, z, z.pulse.(section := Tagging(r)));
  }

  /** The receive starts; on a disabled channel after it has been enabled again. */
  lemma StartsReceive(x: System, y: System, r: Request) returns (z: System)
    requires Leads(x, y) && y.pulse.section == Tagging(r) && y.pulse.rx.inFlight.None?
    ensures z == y.(pulse := y.pulse.(section := Armed(r),
                rx := Channel(y.pulse.armedSeq + 1, true, true, Some(y.pulse.armedSeq + 1)))) && Leads(x, z)
  {
    hide Leads;
    z := MarksReceive(x, y, r);
    if !z.pulse.rx.isEnabled {
      z := EnablesAgain(x, z, r);
    }
    var marked := z.pulse;
    var started := marked.(section := Armed(r), rx := marked.rx.(inFlight := Some(marked.armedSeq + 1)));
    assert ReceiveStarts(marked, started);
    z := Within(x, z, started);
  }

  lemma MarksReceive(x: System, y: System, r: Request) returns (z: System)
    requires Leads(x, y) && y.pulse.section == Tagging(r)
    ensures Leads(x, z)
    ensures z == y.(pulse := y.pulse.(section := Starting(r),
                rx := y.pulse.rx.(captureSeq := y.pulse.armedSeq + 1, isReceivePending := true)))
  {
    hide Leads;
    var tagged := y.pulse.(section := Marking(r), rx := y.pulse.rx.(captureSeq := y.pulse.armedSeq + 1));
    assert WriteTag(y.pulse, tagged);
    z := Within(x, y, tagged);
    var marked := tagged.(section := Starting(r), rx := tagged.rx.(isReceivePending := true));
    assert MarkPending(tagged, marked);
    z := Within(x, z, marked);
  }

  /** rmt_receive() reports an invalid state, and the channel is enabled for the second try. */
  lemma EnablesAgain(x: System, y: System, r: Request) returns (z: System)
    requires Leads(x, y) && y.pulse.section == Starting(r)
    ensures Leads(x, z)
    ensures z == y.(pulse := y.pulse.(section := Retrying(r), rx := y.pulse.rx.(isEnabled := true)))
  {
    hide Leads;
    assert ReceiveFails(y.pulse, true, y.pulse.(section := Reenabling(r)));
    z := Within(x, y, y.pulse.(section := Reenabling(r)));
    var enabled := z.pulse.(section := Retrying(r), rx := z.pulse.rx.(isEnabled := true));
    assert Reenable(z.pulse, true, enabled);
    z := Within(x, z, enabled);
  }

  lemma SignalsAndLeaves(x: System, y: System, who: Who, r: Request) returns (z: System)
    requires Leads(x, y) && y.pulse.section == Armed(r) && y.pulse.lock == Caller(who)
    ensures Leads(x, z)
    ensures z == y.(pulse := At(y.pulse, who, CallerIdle).(lock := Free, section := Outside, isSignalled := true,
                armed := SnapshotOf(y.pulse.armed, r), armedSeq := y.pulse.armedSeq + 1,
                history := y.pulse.history.(arms := y.pulse.history.arms + [r])))
  {
    hide Leads;
    var stored := y.pulse.(section := Signalling, armed := SnapshotOf(y.pulse.armed, r),
      armedSeq := y.pulse.armedSeq + 1, history := y.pulse.history.(arms := y.pulse.history.arms + [r]));
    assert StoreSnapshot(y.pulse, stored);
    z := Within(x, y, stored);
    var signalled := stored.(section := Releasing, isSignalled := true);
    assert GiveSignal(stored, signalled);
    z := Within(x, z, signalled);
    var left := At(signalled, who, CallerIdle).(lock := Free, section := Outside);
    assert GiveLock(signalled, who, left);
    z := Within(x, z, left);
  }

  lemma Arms(x: System, y: System, s: State, who: Who, r: Request) returns (z: System)
    requires Leads(x, y) && IsResting(s) && y.pulse == At(s, who, Entered(r))
    ensures z == y.(pulse := ArmedWith(s, r)) && Leads(x, z)
  {
    hide Leads;
    z := TakesTheLock(x, y, s, who, r);
    z := StartsReceive(x, z, r);
    z := SignalsAndLeaves(x, z, who, r);
  }

  /** The receive delivers frame `f`, and the decode task wakes up and finds its event. */
  lemma Receives(x: System, y: System, s: State, r: Request, f: Frame) returns (z: System)
    requires Leads(x, y) && IsResting(s) && y.pulse == ArmedWith(s, r)
    requires |f| <= DATA_SYMBOLS == |s.buffer|
    ensures Leads(x, z)
    ensures z == y.(pulse := y.pulse.(decode := Waiting(LatestWait(y.pulse)), isSignalled := false,
                buffer := f + s.buffer[|f|..], queue := Some(DoneEvent(|f|, y.pulse.armedSeq)),
                rx := Channel(y.pulse.armedSeq, false, true, None),
                history := y.pulse.history.(frames := y.pulse.history.frames[y.pulse.armedSeq := f])))
  {
    hide Leads;
    var content := f + s.buffer[|f|..];
    var received := y.pulse.(buffer := content, queue := Some(DoneEvent(|f|, y.pulse.rx.captureSeq)),
      rx := y.pulse.rx.(inFlight := None, isReceivePending := false),
      history := y.pulse.history.(frames := y.pulse.history.frames[y.pulse.rx.inFlight.value := f]));
    assert FinishReceive(y.pulse, f, content, received);
    z := Within(x, y, received);
    assert TakeSignal(received, received.(decode := Woken, isSignalled := false));
    z := Within(x, z, received.(decode := Woken, isSignalled := false));
    assert LockForSeq(z.pulse, z.pulse.(decode := ReadingSeq, lock := DecodeTask));
    z := Within(x, z, z.pulse.(decode := ReadingSeq, lock := DecodeTask));
    assert ReadSeq(z.pulse, z.pulse.(decode := Waiting(LatestWait(z.pulse)), lock := Free));
    z := Within(x, z, z.pulse.(decode := Waiting(LatestWait(z.pulse)), lock := Free));
  }

  lemma Captures(x: System, y: System, wait: Wait, event: DoneEvent) returns (z: System)
    requires Leads(x, y) && y.pulse.decode == Waiting(wait) && y.pulse.queue == Some(event) && y.pulse.lock.Free?
    requires event.tag == y.pulse.armedSeq
    ensures Leads(x, z)
    ensures z == y.(pulse := y.pulse.(decode := PublishingCapture(y.pulse.armedSeq, event.count), queue := None,
                copies := Copies(y.pulse.buffer, CopyOf(y.pulse.copies.snapshot, y.pulse.armed)),
                isSignalled := false))
  {
    hide Leads;
    assert ReceiveEvent(y.pulse, y.pulse.(decode := GotEvent(wait, event), queue := None));
    z := Within(x, y, y.pulse.(decode := GotEvent(wait, event), queue := None));
    assert LockForCompare(z.pulse, z.pulse.(decode := Comparing(wait, event), lock := DecodeTask));
    z := Within(x, z, z.pulse.(decode := Comparing(wait, event), lock := DecodeTask));
    var taken := z.pulse.(decode := PublishingCapture(z.pulse.armedSeq, event.count),
      copies := Copies(z.pulse.buffer, CopyOf(z.pulse.copies.snapshot, z.pulse.armed)), isSignalled := false,
      lock := Free);
    assert TakeCapture(z.pulse, taken);
    z := Within(x, z, taken);
  }

  /** What the decode task measures of its copies is the measurement of this request and this frame. */
  lemma CopiesMeasure(s: State, r: Request, f: Frame)
    requires Inv(s) && s.decode == PublishingCapture(s.armedSeq, |f|) && s.armedSeq > 0
    requires s.history.arms[s.armedSeq - 1] == r && s.armedSeq in s.history.frames && s.history.frames[s.armedSeq] == f
    ensures MeasureCopy(s.copies, s.decode.count) == MeasurementOf(r, f)
  {
    hide MeasureCopy; hide MeasurementOf; hide LogInv; hide ClaimInv; hide WakeInv; hide QuietInv; hide ChannelInv;
    CopyMeasures(s.copies, s.decode.count, r, f);
  }

  /** The measurement is posted to the orchestrator, which stores it. */
  lemma Stores(x: System, y: System, m: Measurement) returns (z: System)
    requires Leads(x, y) && y.queue == [] && m.submit >= y.result.submit && y.pulse.orchestrator.CallerIdle?
    requires y.pulse.decode.PublishingCapture? && m == MeasureCopy(y.pulse.copies, y.pulse.decode.count)
    ensures Leads(x, z)
    ensures z == y.(result := m, published := y.published[m.submit := m],
              pulse := y.pulse.(decode := Blocked, history := Log(y.pulse.history, y.pulse.decode.arm, m)))
  {
    hide Leads; hide MeasureCopy;
    var published := y.pulse.(decode := Blocked, history := Log(y.pulse.history, y.pulse.decode.arm, m));
    assert PublishCapture(y.pulse, m, published);
    var posted := y.(pulse := published, queue := [PulseResult(m)], published := y.published[m.submit := m]);
    assert Posted(y.queue, PulseResult(m), posted.queue);
    assert PostResult(y, m, posted);
    Onward(x, y, posted);
    z := posted.(queue := [], result := m);
    assert StoreResult(posted, z);
    Onward(x, posted, z);
  }

  /** At rest with nothing queued. */
  ghost predicate IsAtRest(x: System) {
    IsResting(x.pulse) && x.queue == [] && x.ledQueue.None?
  }

  /** From an accepted call to the measurement of the delivered frame. */
  lemma Measures(x: System, y: System, s: State, who: Who, r: Request, f: Frame) returns (z: System)
    requires SystemInv(x) && Leads(x, y) && IsResting(s) && y.pulse == At(s, who, Entered(r)) && |f| <= DATA_SYMBOLS
    ensures Leads(x, z) && z == y.(pulse := z.pulse) && IsResting(z.pulse.(decode := Blocked))
    ensures z.pulse.decode.PublishingCapture?
    ensures MeasureCopy(z.pulse.copies, z.pulse.decode.count) == MeasurementOf(r, f)
  {
    LeadsInv(x, y);
    hide Leads; hide SystemInv; hide MeasurementOf; hide MeasureCopy; hide SnapshotOf; hide CopyOf;
    BufferLength(y);
    z := Arms(x, y, s, who, r);
    z := Receives(x, z, s, r, f);
    z := Captures(x, z, z.pulse.decode.wait, z.pulse.queue.value);
    LeadsInv(x, z);
    PulseInv(z);
    CopiesMeasure(z.pulse, r, f);
  }

  /** And on to the stored result. */
  lemma Delivers(x: System, y: System, s: State, who: Who, r: Request, f: Frame) returns (z: System)
    requires SystemInv(x) && Leads(x, y) && IsResting(s) && y.pulse == At(s, who, Entered(r))
    requires y.queue == [] && y.ledQueue.None? && r.submit >= y.result.submit && |f| <= DATA_SYMBOLS
    ensures Leads(x, z) && IsAtRest(z)
    ensures z.result == MeasurementOf(r, f) && z.lastIssued == y.lastIssued && z.issued == y.issued
  {
    hide Leads; hide SystemInv; hide MeasurementOf; hide MeasureCopy;
    z := Measures(x, y, s, who, r, f);
    SubmitOf(r, f);
    z := Stores(x, z, MeasurementOf(r, f));
  }

  lemma BufferLength(y: System)
    requires SystemInv(y)
    ensures |y.pulse.buffer| == DATA_SYMBOLS && |y.pulse.history.arms| == y.pulse.armedSeq
  {
    hide QueueInv; hide ActiveInv; hide ArmsInv; hide PublishedInv; hide LogInv; hide WakeInv;
  }

  lemma PulseInv(y: System)
    requires SystemInv(y)
    ensures Inv(y.pulse)
  {
    hide Inv; hide QueueInv; hide ActiveInv; hide ArmsInv; hide PublishedInv;
  }

  lemma SubmitOf(r: Request, f: Frame)
    ensures MeasurementOf(r, f).submit == r.submit
  {
    hide SpecStats; hide SpecRead;
  }

  lemma RecordIssued(x: System)
    requires SystemInv(x)
    ensures x.result.submit <= x.lastIssued
  {
    hide Inv; hide Active; hide QueueInv; hide ActiveInv; hide ArmsInv; hide IsGenuine;
  }

  /**
   * A timing set submitted at rest can be measured and served: for any frame the receiver may deliver there is a run to
   * the terminal answer with the measurement of that frame, and the device is at rest again.
   */
  lemma DeliversSend(x: System, t: Timing, f: Frame) returns (z: System)
    requires SystemInv(x) && IsAtRest(x) && ValidateWs2812Timing(t) == TimingOk && |f| <= DATA_SYMBOLS
    ensures Leads(x, z) && IsAtRest(z)
    ensures var n := x.lastIssued + 1;
      var r := SendRequest(n, t, LED_PATTERN);
      && z.lastIssued == n && z.issued == x.issued + [r]
      && z.result == MeasurementOf(r, f) && AnswerFor(z, n) == Terminal(z.result.state)
    ensures IsSentWithin(f, t, LED_PATTERN, 0) ==>
              z.result == Measurement(x.lastIssued + 1, MeasuredDone, t.bit0High, t.bit1High, 144, true, 0, 0)
  {
    var n := x.lastIssued + 1;
    var r := SendRequest(n, t, LED_PATTERN);
    z := Drives(x, t);
    RecordIssued(x);
    z := Delivers(x, z, x.pulse, Led, r, f);
    SubmitOf(r, f);
    hide MeasureSend; hide IsSentWithin; hide Leads; hide SystemInv; hide HasBit;
    PatternHasBothBits();
    if IsSentWithin(f, t, LED_PATTERN, 0) {
      SentExactly(n, f, t, LED_PATTERN);
    }
  }

  /** HTTP server, orchestrator and LED task hand a timing set to the pulse monitor. */
  lemma Drives(x: System, t: Timing) returns (z: System)
    requires IsAtRest(x) && ValidateWs2812Timing(t) == TimingOk
    ensures Leads(x, z)
    ensures var n := x.lastIssued + 1;
      var r := SendRequest(n, t, LED_PATTERN);
      z == x.(lastIssued := n, issued := x.issued + [r], called := x.called + {n},
              pulse := At(x.pulse, Led, Entered(r)))
  {
    hide Leads; hide ValidateWs2812Timing;
    z := IssuesTiming(x, t);
    z := ForwardsTiming(x, z, x.lastIssued + 1, t);
    z := CallsMonitor(x, z, SendRequest(x.lastIssued + 1, t, LED_PATTERN));
  }

  lemma IssuesTiming(x: System, t: Timing) returns (z: System)
    requires x.queue == [] && ValidateWs2812Timing(t) == TimingOk
    ensures Leads(x, z)
    ensures var n := x.lastIssued + 1;
      z == x.(lastIssued := n, queue := [LedTiming(n, t)], issued := x.issued + [SendRequest(n, t, LED_PATTERN)])
  {
    hide Leads; hide ValidateWs2812Timing;
    var n := x.lastIssued + 1;
    LeadsNowhere(x);
    var queue := x.queue + [LedTiming(n, t)];
    z := x.(lastIssued := n, queue := queue, issued := x.issued + [SendRequest(n, t, LED_PATTERN)]);
    assert queue == [LedTiming(n, t)];
    assert IssueTiming(x, t, z);
    hide *;
    OnwardIssued(x, x, z, t);
  }

  lemma ForwardsTiming(x: System, y: System, n: nat, t: Timing) returns (z: System)
    requires Leads(x, y) && y.queue == [LedTiming(n, t)] && y.pulse.orchestrator.CallerIdle?
    ensures Leads(x, z) && z == y.(queue := [], ledQueue := Some(SendRequest(n, t, LED_PATTERN)))
  {
    hide Leads;
    z := y.(queue := [], ledQueue := Some(SendRequest(n, t, LED_PATTERN)));
    assert ForwardTiming(y, z);
    Onward(x, y, z);
  }

  lemma CallsMonitor(x: System, y: System, r: Request) returns (z: System)
    requires Leads(x, y) && y.ledQueue == Some(r) && y.pulse.led.CallerIdle? && y.pulse.isStarted
    requires r.SendRequest? && |r.pixels| <= PIXEL_BYTES
    ensures Leads(x, z)
    ensures z == y.(ledQueue := None, pulse := At(y.pulse, Led, Entered(r)), called := y.called + {r.submit})
  {
    hide Leads;
    z := y.(ledQueue := None, pulse := At(y.pulse, Led, Entered(r)), called := y.called + {r.submit});
    assert Enter(y.pulse, Led, r, z.pulse);
    assert DriveFrame(y, z);
    Onward(x, y, z);
  }

  /** The same for a read of an external source. */
  lemma DeliversRead(x: System, f: Frame) returns (z: System)
    requires SystemInv(x) && IsAtRest(x) && |f| <= DATA_SYMBOLS
    ensures Leads(x, z) && IsAtRest(z)
    ensures var n := x.lastIssued + 1;
      && z.lastIssued == n && z.issued == x.issued + [ReadRequest(n)]
      && z.result == MeasurementOf(ReadRequest(n), f) && AnswerFor(z, n) == Terminal(z.result.state)
      && (|UsableSet(f, |f|)| >= 8 ==> AnswerFor(z, n) == Terminal(ReadDone))
  {
    var n := x.lastIssued + 1;
    var r := ReadRequest(n);
    z := Requests(x);
    RecordIssued(x);
    z := Delivers(x, z, x.pulse, Orchestrator, r, f);
    SubmitOf(r, f);
    hide MeasureRead; hide Leads; hide SystemInv; hide UsableSet;
    ReadDoneIff(n, f);
  }

  lemma Requests(x: System) returns (z: System)
    requires IsAtRest(x)
    ensures Leads(x, z)
    ensures var n := x.lastIssued + 1;
      z == x.(lastIssued := n, issued := x.issued + [ReadRequest(n)], called := x.called + {n},
              pulse := At(x.pulse, Orchestrator, Entered(ReadRequest(n))))
  {
    hide Leads;
    z := IssuesRead(x);
    z := CallsReader(x, z, x.lastIssued + 1);
  }

  lemma IssuesRead(x: System) returns (z: System)
    requires x.queue == []
    ensures Leads(x, z)
    ensures var n := x.lastIssued + 1;
      z == x.(lastIssued := n, queue := [ReadRequested(n)], issued := x.issued + [ReadRequest(n)])
  {
    hide Leads;
    var n := x.lastIssued + 1;
    LeadsNowhere(x);
    var queue := x.queue + [ReadRequested(n)];
    z := x.(lastIssued := n, queue := queue, issued := x.issued + [ReadRequest(n)]);
    assert queue == [ReadRequested(n)];
    assert IssueRead(x, z);
    Onward(x, x, z);
  }

  lemma CallsReader(x: System, y: System, n: nat) returns (z: System)
    requires Leads(x, y) && y.queue == [ReadRequested(n)] && y.pulse.orchestrator.CallerIdle? && y.pulse.isStarted
    ensures Leads(x, z)
    ensures z == y.(queue := [], pulse := At(y.pulse, Orchestrator, Entered(ReadRequest(n))), called := y.called + {n})
  {
    hide Leads;
    z := y.(queue := [], pulse := At(y.pulse, Orchestrator, Entered(ReadRequest(n))), called := y.called + {n});
    assert Enter(y.pulse, Orchestrator, ReadRequest(n), z.pulse);
    assert ForwardRead(y, z);
    Onward(x, y, z);
  }

  /** A device that has just started, with no boot frame to drive, is at rest: its first submission can be served. */
  lemma StartsAtRest(x: System)
    requires SystemInit(x) && x.pulse.isStarted && x.ledQueue.None?
    ensures SystemInv(x) && IsAtRest(x)
  {
    SystemInitInv(x);
  }
}
