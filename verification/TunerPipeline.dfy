/**
 * The path of a submission number: issued by the HTTP server (main/http_portal/http_portal.c), carried by the
 * orchestrator queue (main/provisioning/provisioning.c) and the 1-deep LED queue (main/led_controller/led_controller.c)
 * to the pulse monitor, and back as a measurement to the stored result and the answer
 * (main/http_portal/tuner_result.c).
 */
module TunerPipeline {
  import opened Ws2812
  import opened PulseDecode
  import opened PulseMonitor
  import opened PulseSafety

  const LED_PATTERN: Pixels := [0, 32, 0, 0, 32, 0, 32, 0, 0, 32, 0, 0, 0, 0, 32, 0, 0, 32]

  // The answer served for a number.

  datatype Answer = Unknown | Pending | Superseded | Terminal(state: MeasurementState)

  function GetTunerResultState(requested: nat, lastIssued: nat, record: Measurement): Answer {
    if requested == 0 || requested > lastIssued then Unknown
    else if record.submit == requested then Terminal(record.state)
    else if record.submit > requested then Superseded
    else Pending
  }

  // The system.

  datatype Message = LedTiming(submit: nat, timing: Timing) | ReadRequested(submit: nat) | PulseResult(m: Measurement)

  datatype System = System(
    pulse: State,
    lastIssued: nat,                     // s_submit_seq
    queue: seq<Message>,                 // orchestrator queue; its other messages only cost room
    ledQueue: Option<Request>,           // 1-deep, overwritten
    result: Measurement,                 // s_result
    // history
    issued: seq<Request>,                // request number n is issued[n - 1]
    called: set<nat>,                    // numbers handed to the pulse monitor
    published: map<nat, Measurement>)

  const NO_RESULT: Measurement := Blank(0, MeasuredDone)    // the zero-initialised record

  function MessageRequest(m: Message): Option<Request> {
    match m
    case LedTiming(n, t) => Some(SendRequest(n, t, LED_PATTERN))
    case ReadRequested(n) => Some(ReadRequest(n))
    case PulseResult(_) => None
  }

  /** xQueueSend() with zero timeout: appended, or dropped when the queue is full. */
  predicate Posted(before: seq<Message>, m: Message, after: seq<Message>) {
    after == before + [m] || after == before
  }

  predicate IssueTiming(x: System, t: Timing, x': System) {
    var n := x.lastIssued + 1;
    && ValidateWs2812Timing(t).TimingOk? && Posted(x.queue, LedTiming(n, t), x'.queue)
    && x' == x.(lastIssued := n, queue := x'.queue, issued := x.issued + [SendRequest(n, t, LED_PATTERN)])
  }

  predicate IssueRead(x: System, x': System) {
    var n := x.lastIssued + 1;
    && Posted(x.queue, ReadRequested(n), x'.queue)
    && x' == x.(lastIssued := n, queue := x'.queue, issued := x.issued + [ReadRequest(n)])
  }

  /** ApplyWs2812Timing(): the newest timing overwrites an unsent one. */
  predicate ForwardTiming(x: System, x': System) {
    && x.pulse.orchestrator.CallerIdle? && x.queue != [] && x.queue[0].LedTiming?
    && x' == x.(queue := x.queue[1..], ledQueue := MessageRequest(x.queue[0]))
  }

  ghost predicate ForwardRead(x: System, x': System) {
    && x.pulse.orchestrator.CallerIdle? && x.queue != [] && x.queue[0].ReadRequested?
    && Next(x.pulse, Call(Orchestrator, ReadRequest(x.queue[0].submit)), x'.pulse)
    && x' == x.(queue := x.queue[1..], pulse := x'.pulse, called := x.called + {x.queue[0].submit})
  }

  /** SetHttpTunerResult(): results never move backwards. */
  predicate StoreResult(x: System, x': System) {
    && x.pulse.orchestrator.CallerIdle? && x.queue != [] && x.queue[0].PulseResult?
    && x' == x.(queue := x.queue[1..], result := if x.queue[0].m.submit >= x.result.submit then x.queue[0].m
        else x.result)
  }

  /** DriveFrame(): arm the monitor, unless the frame is skipped before. */
  ghost predicate DriveFrame(x: System, x': System) {
    && x.pulse.led.CallerIdle? && x.ledQueue.Some? && x.ledQueue.value.SendRequest?
    && (|| x' == x.(ledQueue := None)
        || (&& Next(x.pulse, Call(Led, x.ledQueue.value), x'.pulse)
            && x' == x.(ledQueue := None, pulse := x'.pulse, called := x.called + {x.ledQueue.value.submit})))
  }

  ghost predicate PulseInternal(x: System, x': System) {
    Next(x.pulse, Internal, x'.pulse) && x' == x.(pulse := x'.pulse)
  }

  /** PostPulseResult(): hand the measurement to the orchestrator, or drop it. */
  ghost predicate PostResult(x: System, m: Measurement, x': System) {
    && Next(x.pulse, Publish(m), x'.pulse) && Posted(x.queue, PulseResult(m), x'.queue)
    && x' == x.(pulse := x'.pulse, queue := x'.queue, published := x.published[m.submit := m])
  }

  ghost predicate Step(x: System, x': System) {
    || (exists t :: IssueTiming(x, t, x')) || IssueRead(x, x')
    || ForwardTiming(x, x') || ForwardRead(x, x') || StoreResult(x, x')
    || DriveFrame(x, x') || PulseInternal(x, x') || (exists m :: PostResult(x, m, x'))
  }

  /** At start the LED queue may hold the boot frame, number 0. */
  predicate SystemInit(x: System) {
    && Init(x.pulse) && x.lastIssued == 0 && x.queue == [] && x.result == NO_RESULT
    && x.issued == [] && x.called == {} && x.published == map[]
    && (x.ledQueue.Some? ==> x.ledQueue.value.SendRequest? && x.ledQueue.value.submit == 0)
  }

  // Invariant: every number is in at most one place, and every place holds the request issued under that number.

  type Numbers = set<nat>
  type Published = map<nat, Measurement>

  ghost predicate IsIssued(issued: seq<Request>, r: Request) {
    r.submit > 0 ==> r.submit <= |issued| && issued[r.submit - 1] == r
  }

  ghost predicate IsWaiting(r: Request, issued: seq<Request>, called: Numbers) {
    IsIssued(issued, r) && r.submit !in called
  }

  ghost predicate MessageInv(m: Message, ledQueue: Option<Request>, issued: seq<Request>, called: Numbers,
      published: Published) {
    match MessageRequest(m)
    case Some(r) => IsWaiting(r, issued, called) && r.submit > 0 && (ledQueue.Some? ==>
        ledQueue.value.submit != r.submit)
    case None => m.PulseResult? && m.m.submit in published && published[m.m.submit] == m.m
  }

  ghost predicate AreDistinct(m: Message, n: Message) {
    MessageRequest(m).Some? && MessageRequest(n).Some? ==>
        MessageRequest(m).value.submit != MessageRequest(n).value.submit
  }

  ghost predicate QueueInv(queue: seq<Message>, ledQueue: Option<Request>, issued: seq<Request>, called: Numbers,
      published: Published) {
    && (forall i :: 0 <= i < |queue| ==> MessageInv(queue[i], ledQueue, issued, called, published))
    && (forall i, j :: 0 <= i < j < |queue| ==> AreDistinct(queue[i], queue[j]))
    && (ledQueue.Some? ==> IsWaiting(ledQueue.value, issued, called))
  }

  /** The request an arming task works on has neither been armed nor been answered. */
  ghost predicate ActiveInv(a: Option<Request>, issued: seq<Request>, called: Numbers, published: Published,
      arms: seq<Request>) {
    a.Some? ==>
      && IsIssued(issued, a.value) && a.value.submit in called && a.value.submit !in published
      && (forall k :: 0 <= k < |arms| ==> arms[k].submit != a.value.submit)
  }

  ghost predicate ArmsInv(arms: seq<Request>, issued: seq<Request>, called: Numbers, published: Published, last: nat) {
    && (forall k :: 0 <= k < |arms| ==> IsIssued(issued, arms[k]) && arms[k].submit in called)
    && (forall j, k :: 0 <= j < k < |arms| ==> arms[j].submit != arms[k].submit)
    && (forall k :: 0 <= k < |arms| && arms[k].submit in published ==> k < last)
  }

  ghost predicate IsMeasuredBy(m: Measurement, h: History, k: nat)
    requires k < |h.arms|
  {
    h.arms[k].submit == m.submit && k + 1 in h.frames && m == MeasurementOf(h.arms[k], h.frames[k + 1])
  }

  /** The values of a measurement can only come from one capture armed for its number. */
  ghost predicate IsGenuine(m: Measurement, h: History) {
    m.state.MeasuredDone? || m.state.ReadDone? ==> exists k :: 0 <= k < |h.arms| && IsMeasuredBy(m, h, k)
  }

  ghost predicate PublishedInv(published: Published, called: Numbers, h: History) {
    forall n <- published :: published[n].submit == n && n in called && IsGenuine(published[n], h)
  }

  ghost predicate ResultInv(result: Measurement, published: Published) {
    result == NO_RESULT || (result.submit in published && published[result.submit] == result)
  }

  ghost predicate CalledInv(called: Numbers, lastIssued: nat) {
    forall n <- called :: n <= lastIssued
  }

  ghost predicate DifferentRequests(a: Option<Request>, b: Option<Request>) {
    a.Some? && b.Some? ==> a.value.submit != b.value.submit
  }

  ghost predicate SystemInv(x: System) {
    var h := x.pulse.history;
    && Inv(x.pulse) && |x.issued| == x.lastIssued && CalledInv(x.called, x.lastIssued)
    && QueueInv(x.queue, x.ledQueue, x.issued, x.called, x.published)
    && ActiveInv(Active(x.pulse, Led), x.issued, x.called, x.published, h.arms)
    && ActiveInv(Active(x.pulse, Orchestrator), x.issued, x.called, x.published, h.arms)
    && DifferentRequests(Active(x.pulse, Led), Active(x.pulse, Orchestrator))
    && ArmsInv(h.arms, x.issued, x.called, x.published, LastSettled(h.outcomes))
    && PublishedInv(x.published, x.called, h) && ResultInv(x.result, x.published)
  }

  lemma SystemInitInv(x: System)
    requires SystemInit(x)
    ensures SystemInv(x)
  {
    InitInv(x.pulse);
  }

  // Issuing a number, and moving messages.

  lemma QueueIssue(x: System, r: Request, m: Message, after: seq<Message>)
    requires QueueInv(x.queue, x.ledQueue, x.issued, x.called, x.published)
    requires CalledInv(x.called, |x.issued|) && r.submit == |x.issued| + 1 && MessageRequest(m) == Some(r)
    requires Posted(x.queue, m, after)
    ensures QueueInv(after, x.ledQueue, x.issued + [r], x.called, x.published)
  {
    forall i | 0 <= i < |x.queue| ensures MessageInv(x.queue[i], x.ledQueue, x.issued + [r], x.called, x.published)
                                       && AreDistinct(x.queue[i], m) {
      assert MessageInv(x.queue[i], x.ledQueue, x.issued, x.called, x.published);
    }
  }

  lemma IssueInv(x: System, r: Request, m: Message, x': System)
    requires SystemInv(x)
    requires r.submit == x.lastIssued + 1 && MessageRequest(m) == Some(r) && Posted(x.queue, m, x'.queue)
    requires x' == x.(lastIssued := r.submit, queue := x'.queue, issued := x.issued + [r])
    ensures SystemInv(x')
  {
    QueueIssue(x, r, m, x'.queue);
    hide Inv; hide Active; hide PublishedInv; hide QueueInv;
  }

  lemma QueueForward(queue: seq<Message>, ledQueue: Option<Request>, issued: seq<Request>, called: Numbers,
      published: Published)
    requires QueueInv(queue, ledQueue, issued, called, published) && queue != []
    ensures QueueInv(queue[1..], ledQueue, issued, called, published)
    ensures queue[0].LedTiming? ==> QueueInv(queue[1..], MessageRequest(queue[0]), issued, called, published)
    ensures queue[0].ReadRequested? ==> QueueInv(queue[1..], ledQueue, issued, called + {queue[0].submit}, published)
    ensures queue[0].ReadRequested? ==> IsWaiting(ReadRequest(queue[0].submit), issued, called) && queue[0].submit > 0
  {
    assert MessageInv(queue[0], ledQueue, issued, called, published);
    forall i | 1 <= i < |queue| ensures MessageInv(queue[i], ledQueue, issued, called, published)
        && AreDistinct(queue[0], queue[i]) {
    }
  }

  lemma ForwardTimingInv(x: System, x': System)
    requires SystemInv(x) && ForwardTiming(x, x')
    ensures SystemInv(x')
  {
    hide Inv; hide Active; hide PublishedInv; hide QueueInv; hide ActiveInv; hide ArmsInv; hide ResultInv;
    QueueForward(x.queue, x.ledQueue, x.issued, x.called, x.published);
  }

  lemma StoreResultInv(x: System, x': System)
    requires SystemInv(x) && StoreResult(x, x')
    ensures SystemInv(x')
  {
    assert MessageInv(x.queue[0], x.ledQueue, x.issued, x.called, x.published);
    hide Inv; hide Active; hide PublishedInv; hide QueueInv; hide ActiveInv; hide ArmsInv;
    QueueForward(x.queue, x.ledQueue, x.issued, x.called, x.published);
  }

  // A request leaves its queue and becomes the active request of an arming task.

  lemma CallInv(x: System, who: Who, r: Request, x': System)
    requires SystemInv(x) && IsWaiting(r, x.issued, x.called) && r.submit <= x.lastIssued
    requires Next(x.pulse, Call(who, r), x'.pulse)
    requires x' == x.(queue := x'.queue, ledQueue := x'.ledQueue, pulse := x'.pulse, called := x.called + {r.submit})
    requires QueueInv(x'.queue, x'.ledQueue, x'.issued, x'.called, x'.published)
    ensures SystemInv(x')
  {
    CallEffect(x.pulse, who, r, x'.pulse);
    StepInv(x.pulse, Call(who, r), x'.pulse);
    hide Inv; hide Active; hide IsGenuine; hide Next; hide QueueInv; hide Enter;
  }

  lemma ForwardReadInv(x: System, x': System)
    requires SystemInv(x) && ForwardRead(x, x')
    ensures SystemInv(x')
  {
    hide Inv; hide Active; hide PublishedInv; hide QueueInv; hide ActiveInv; hide ArmsInv; hide ResultInv; hide Next;
    QueueForward(x.queue, x.ledQueue, x.issued, x.called, x.published);
    CallInv(x, Orchestrator, ReadRequest(x.queue[0].submit), x');
  }

  lemma QueueDrive(queue: seq<Message>, ledQueue: Option<Request>, issued: seq<Request>, called: Numbers,
      published: Published)
    requires QueueInv(queue, ledQueue, issued, called, published) && ledQueue.Some?
    ensures QueueInv(queue, None, issued, called, published)
    ensures QueueInv(queue, None, issued, called + {ledQueue.value.submit}, published)
    ensures IsWaiting(ledQueue.value, issued, called)
  {
    forall i | 0 <= i < |queue|
      ensures MessageInv(queue[i], None, issued, called, published)
           && MessageInv(queue[i], None, issued, called + {ledQueue.value.submit}, published)
    {
      assert MessageInv(queue[i], ledQueue, issued, called, published);
    }
  }

  lemma DriveFrameInv(x: System, x': System)
    requires SystemInv(x) && DriveFrame(x, x')
    ensures SystemInv(x')
  {
    hide Inv; hide Active; hide PublishedInv; hide QueueInv; hide ActiveInv; hide ArmsInv; hide ResultInv; hide Next;
    QueueDrive(x.queue, x.ledQueue, x.issued, x.called, x.published);
    if x' != x.(ledQueue := None) {
      CallInv(x, Led, x.ledQueue.value, x');
    }
  }

  // Steps of the pulse monitor.

  lemma GenuineStays(m: Measurement, h: History, h': History)
    requires IsGenuine(m, h) && Grows(h, h')
    ensures IsGenuine(m, h')
  {
    hide MeasurementOf;
    if m.state.MeasuredDone? || m.state.ReadDone? {
      var k :| 0 <= k < |h.arms| && IsMeasuredBy(m, h, k);
      assert IsMeasuredBy(m, h', k);
    }
  }

  lemma PublishedStays(published: Published, called: Numbers, h: History, h': History)
    requires PublishedInv(published, called, h) && Grows(h, h')
    ensures PublishedInv(published, called, h')
  {
    hide IsGenuine; hide Grows;
    forall n <- published ensures IsGenuine(published[n], h') {
      GenuineStays(published[n], h, h');
    }
  }

  lemma ArmsAppend(a: Option<Request>, b: Option<Request>, issued: seq<Request>, called: Numbers, published: Published,
                   arms: seq<Request>, last: nat)
    requires a.Some? && ActiveInv(a, issued, called, published, arms) && ActiveInv(b, issued, called, published, arms)
    requires DifferentRequests(a, b) && ArmsInv(arms, issued, called, published, last)
    ensures ArmsInv(arms + [a.value], issued, called, published, last)
    ensures ActiveInv(b, issued, called, published, arms + [a.value])
  {
  }

  lemma PulseInternalInv(x: System, x': System)
    requires SystemInv(x) && PulseInternal(x, x')
    ensures SystemInv(x')
  {
    hide Inv; hide Active; hide PublishedInv; hide QueueInv; hide ActiveInv; hide ArmsInv; hide ResultInv; hide Next;
    hide Grows;
    InternalEffect(x.pulse, x'.pulse);
    StepInv(x.pulse, Internal, x'.pulse);
    var h := x.pulse.history;
    PublishedStays(x.published, x.called, h, x'.pulse.history);
    if ArmsRequest(x.pulse, Led, x'.pulse) {
      ArmsAppend(Active(x.pulse, Led), Active(x.pulse, Orchestrator), x.issued, x.called, x.published, h.arms,
          LastSettled(h.outcomes));
      NoActive(x'.issued, x'.called, x'.published, x'.pulse.history.arms);
    } else if ArmsRequest(x.pulse, Orchestrator, x'.pulse) {
      ArmsAppend(Active(x.pulse, Orchestrator), Active(x.pulse, Led), x.issued, x.called, x.published, h.arms,
          LastSettled(h.outcomes));
      NoActive(x'.issued, x'.called, x'.published, x'.pulse.history.arms);
    }
  }

  lemma NoActive(issued: seq<Request>, called: Numbers, published: Published, arms: seq<Request>)
    ensures ActiveInv(None, issued, called, published, arms)
  {
  }

  // Publication of a fresh number.

  lemma QueuePost(queue: seq<Message>, ledQueue: Option<Request>, issued: seq<Request>, called: Numbers,
      published: Published,
                  m: Measurement, after: seq<Message>)
    requires QueueInv(queue, ledQueue, issued, called, published) && m.submit !in published
    requires Posted(queue, PulseResult(m), after)
    ensures QueueInv(after, ledQueue, issued, called, published[m.submit := m])
  {
    forall i | 0 <= i < |queue| ensures MessageInv(queue[i], ledQueue, issued, called, published[m.submit := m]) {
      assert MessageInv(queue[i], ledQueue, issued, called, published);
    }
  }

  lemma PublishFresh(published: Published, called: Numbers, h: History, m: Measurement, result: Measurement)
    requires PublishedInv(published, called, h) && m.submit !in published && m.submit in called && IsGenuine(m, h)
    requires ResultInv(result, published)
    ensures PublishedInv(published[m.submit := m], called, h) && ResultInv(result, published[m.submit := m])
  {
    hide IsGenuine;
  }

  lemma RejectInv(x: System, who: Who, m: Measurement, x': System)
    requires SystemInv(x) && PostResult(x, m, x') && Rejects(x.pulse, who, m, x'.pulse)
    ensures SystemInv(x') && m.submit !in x.published
  {
    hide Inv; hide Active; hide PublishedInv; hide QueueInv; hide ResultInv; hide Next;
    StepInv(x.pulse, Publish(m), x'.pulse);
    QueuePost(x.queue, x.ledQueue, x.issued, x.called, x.published, m, x'.queue);
    PublishFresh(x.published, x.called, x.pulse.history, m, x.result);
  }

  lemma ArmsSettle(arms: seq<Request>, issued: seq<Request>, called: Numbers, published: Published, last: nat,
      arm: nat, m: Measurement)
    requires ArmsInv(arms, issued, called, published, last) && last < arm <= |arms| && arms[arm - 1].submit == m.submit
    ensures m.submit !in published && m.submit in called && ArmsInv(arms, issued, called, published[m.submit := m], arm)
  {
  }

  lemma ActiveSettle(a: Option<Request>, issued: seq<Request>, called: Numbers, published: Published,
      arms: seq<Request>,
                     arm: nat, m: Measurement)
    requires ActiveInv(a, issued, called, published, arms) && 0 < arm <= |arms| && arms[arm - 1].submit == m.submit
    ensures ActiveInv(a, issued, called, published[m.submit := m], arms)
  {
  }

  lemma OutcomeGenuine(o: Outcome, h: History)
    requires IsOutcomeOf(o, h.arms, h.frames)
    ensures IsGenuine(o.m, h)
  {
    OutcomeSubmit(o, h.arms, h.frames);
    hide MeasurementOf;
    if o.m.state.MeasuredDone? || o.m.state.ReadDone? {
      assert IsMeasuredBy(o.m, h, o.arm - 1);
    }
  }

  lemma SettleInv(x: System, m: Measurement, x': System)
    requires SystemInv(x) && PostResult(x, m, x') && Settles(x.pulse, m, x'.pulse)
    ensures SystemInv(x') && m.submit !in x.published
  {
    hide Inv; hide Active; hide PublishedInv; hide QueueInv; hide ResultInv; hide Next; hide ArmsInv; hide ActiveInv;
    hide IsGenuine;
    var h, h' := x.pulse.history, x'.pulse.history;
    var o := Outcome(LastSettled(h'.outcomes), m);
    StepInv(x.pulse, Publish(m), x'.pulse);
    OutcomeSubmit(o, h.arms, h.frames);
    OutcomeGenuine(o, h);
    ArmsSettle(h.arms, x.issued, x.called, x.published, LastSettled(h.outcomes), o.arm, m);
    ActiveSettle(Active(x.pulse, Led), x.issued, x.called, x.published, h.arms, o.arm, m);
    ActiveSettle(Active(x.pulse, Orchestrator), x.issued, x.called, x.published, h.arms, o.arm, m);
    QueuePost(x.queue, x.ledQueue, x.issued, x.called, x.published, m, x'.queue);
    PublishFresh(x.published, x.called, h, m, x.result);
    PublishedStays(x'.published, x'.called, h, h');
  }

  lemma PostResultInv(x: System, m: Measurement, x': System)
    requires SystemInv(x) && PostResult(x, m, x')
    ensures SystemInv(x') && m.submit !in x.published
  {
    PublishEffect(x.pulse, m, x'.pulse);
    hide Inv; hide Rejects; hide Settles; hide SystemInv;
    if Rejects(x.pulse, Led, m, x'.pulse) {
      RejectInv(x, Led, m, x');
    } else if Rejects(x.pulse, Orchestrator, m, x'.pulse) {
      RejectInv(x, Orchestrator, m, x');
    } else {
      SettleInv(x, m, x');
    }
  }

  // Every step, every run.

  lemma SystemStepInv(x: System, x': System)
    requires SystemInv(x) && Step(x, x')
    ensures SystemInv(x')
  {
    hide SystemInv; hide ForwardTiming; hide ForwardRead; hide StoreResult; hide DriveFrame; hide PulseInternal;
    hide PostResult;
    if t :| IssueTiming(x, t, x') {
      IssueInv(x, SendRequest(x.lastIssued + 1, t, LED_PATTERN), LedTiming(x.lastIssued + 1, t), x');
    } else if IssueRead(x, x') {
      IssueInv(x, ReadRequest(x.lastIssued + 1), ReadRequested(x.lastIssued + 1), x');
    } else if ForwardTiming(x, x') {
      ForwardTimingInv(x, x');
    } else if ForwardRead(x, x') {
      ForwardReadInv(x, x');
    } else if StoreResult(x, x') {
      StoreResultInv(x, x');
    } else if DriveFrame(x, x') {
      DriveFrameInv(x, x');
    } else if PulseInternal(x, x') {
      PulseInternalInv(x, x');
    } else {
      var m :| PostResult(x, m, x');
      PostResultInv(x, m, x');
    }
  }

  ghost predicate IsSystemRun(xs: seq<System>) {
    xs != [] && SystemInit(xs[0]) && forall i :: 0 <= i < |xs| - 1 ==> Step(xs[i], xs[i + 1])
  }

  lemma {:induction false} SystemRunInv(xs: seq<System>, i: nat)
    requires IsSystemRun(xs) && i < |xs|
    ensures SystemInv(xs[i])
  {
    hide SystemInv; hide SystemInit; hide Step;
    if i == 0 {
      SystemInitInv(xs[0]);
    } else {
      SystemRunInv(xs, i - 1);
      SystemStepInv(xs[i - 1], xs[i]);
    }
  }

  function AnswerFor(x: System, n: nat): Answer {
    GetTunerResultState(n, x.lastIssued, x.result)
  }

  /** Pending, then one terminal answer, then superseded; steps may be skipped but never undone. */
  predicate Progresses(before: Answer, after: Answer) {
    match before
    case Unknown => true
    case Pending => !after.Unknown?
    case Terminal(_) => after == before || after.Superseded?
    case Superseded => after.Superseded?
  }

  lemma AnswerStep(x: System, x': System, n: nat)
    requires SystemInv(x) && Step(x, x') && 0 < n <= x.lastIssued
    ensures n <= x'.lastIssued && Progresses(AnswerFor(x, n), AnswerFor(x', n))
    ensures AnswerFor(x, n).Terminal? && AnswerFor(x', n).Terminal? ==> x'.result == x.result
  {
    hide Inv; hide Active; hide PublishedInv; hide ActiveInv; hide ArmsInv; hide Next; hide IsWaiting;
    if StoreResult(x, x') {
      assert MessageInv(x.queue[0], x.ledQueue, x.issued, x.called, x.published);
    } else {
      assert x'.result == x.result && x'.lastIssued >= x.lastIssued;
    }
  }

  /** Over every run, the answer to an issued number never goes back, and a terminal answer never changes its values. */
  lemma {:induction false} AnswersOnlyProgress(xs: seq<System>, i: nat, j: nat, n: nat)
    requires IsSystemRun(xs) && i <= j < |xs| && 0 < n <= xs[i].lastIssued
    ensures n <= xs[j].lastIssued && Progresses(AnswerFor(xs[i], n), AnswerFor(xs[j], n))
    ensures AnswerFor(xs[i], n).Terminal? && AnswerFor(xs[j], n).Terminal? ==> xs[j].result == xs[i].result
    decreases j - i
  {
    hide SystemInv; hide Step; hide SystemInit;
    if i < j {
      SystemRunInv(xs, j - 1);
      AnswersOnlyProgress(xs, i, j - 1, n);
      AnswerStep(xs[j - 1], xs[j], n);
    }
  }

  /**
   * Number `n` was measured by arm `k`: the arm of the request issued as `n`, and the frame its own receive delivered.
   */
  ghost predicate IsCaptureFor(x: System, n: nat, k: nat) {
    && 0 < n <= |x.issued| && k < |x.pulse.history.arms| && x.pulse.history.arms[k] == x.issued[n - 1]
    && k + 1 in x.pulse.history.frames && x.result == MeasurementOf(x.issued[n - 1], x.pulse.history.frames[k + 1])
  }

  lemma RequestKind(r: Request, f: Frame)
    ensures MeasurementOf(r, f).state.MeasuredDone? ==> r.SendRequest? && |f| == DATA_SYMBOLS
    ensures MeasurementOf(r, f).state.ReadDone? ==> r.ReadRequest?
  {
    hide SpecStats;
    hide SpecRead;
  }

  /** A measured answer for `n` carries the measurement of the capture armed for `n`, of the kind that was requested. */
  lemma MeasuredAnswersAreGenuine(xs: seq<System>, i: nat, n: nat) returns (k: nat)
    requires IsSystemRun(xs) && i < |xs|
    requires AnswerFor(xs[i], n) in {Terminal(MeasuredDone), Terminal(ReadDone)}
    ensures IsCaptureFor(xs[i], n, k)
    ensures AnswerFor(xs[i], n) == Terminal(MeasuredDone) <==> xs[i].issued[n - 1].SendRequest?
  {
    hide SystemInv; hide IsSystemRun; hide IsCaptureFor; hide Step;
    SystemRunInv(xs, i);
    k := CaptureFor(xs[i], n);
  }

  lemma CaptureFor(x: System, n: nat) returns (k: nat)
    requires SystemInv(x) && AnswerFor(x, n) in {Terminal(MeasuredDone), Terminal(ReadDone)}
    ensures IsCaptureFor(x, n, k)
    ensures AnswerFor(x, n) == Terminal(MeasuredDone) <==> x.issued[n - 1].SendRequest?
  {
    var h := x.pulse.history;
    ResultGenuine(x);
    k :| 0 <= k < |h.arms| && IsMeasuredBy(x.result, h, k);
    ArmIssued(x, k);
    hide SystemInv; hide MeasurementOf;
    RequestKind(h.arms[k], h.frames[k + 1]);
  }

  lemma ResultGenuine(x: System)
    requires SystemInv(x) && x.result.submit > 0
    ensures IsGenuine(x.result, x.pulse.history)
  {
    hide Inv; hide Active; hide QueueInv; hide ActiveInv; hide ArmsInv; hide CalledInv; hide IsGenuine;
  }

  lemma ArmIssued(x: System, k: nat)
    requires SystemInv(x) && k < |x.pulse.history.arms|
    ensures IsIssued(x.issued, x.pulse.history.arms[k]) && |x.issued| == x.lastIssued
  {
    hide Inv; hide Active; hide QueueInv; hide ActiveInv; hide PublishedInv; hide CalledInv; hide ResultInv;
  }
}
