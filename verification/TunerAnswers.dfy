/**
 * What the tuner serves over whole runs: which answer a number has, what a measured answer contains, and that a number
 * issued to a resting device can be measured and served.
 */
module TunerAnswers {
  import opened Ws2812
  import opened PulseDecode
  import opened PulseMonitor
  import opened PulseSafety
  import opened PulseMeaning
  import opened TunerPipeline

  // The answer to a number, by the results that have been handled.

  /** One step of the run before state `j` took result `m` from the orchestrator queue. */
  ghost predicate IsHandled(xs: seq<System>, j: nat, m: Measurement)
    requires j < |xs|
  {
    exists i :: 0 <= i < j && HandlesAt(xs, i, m)
  }

  ghost predicate HandlesAt(xs: seq<System>, i: nat, m: Measurement)
    requires i + 1 < |xs|
  {
    StoreResult(xs[i], xs[i + 1]) && xs[i].queue[0] == PulseResult(m)
  }

  /** Handling a result serves it at once, unless a newer number has already been served. */
  lemma StoreServes(x: System, x': System, m: Measurement)
    requires SystemInv(x) && StoreResult(x, x') && x.queue[0] == PulseResult(m) && m.submit > 0
    ensures || (AnswerFor(x', m.submit) == Terminal(m.state) && x'.result == m)
            || (AnswerFor(x', m.submit) == Superseded && x'.result == x.result && x.result.submit > m.submit)
  {
    hide Inv; hide Active; hide ActiveInv; hide ArmsInv; hide IsGenuine; hide IsWaiting; hide AreDistinct;
    assert MessageInv(x.queue[0], x.ledQueue, x.issued, x.called, x.published);
  }

  // Only the handling of a result changes the record, and a published measurement stays as it is.
  lemma RecordStep(x: System, x': System)
    requires SystemInv(x) && Step(x, x')
    ensures !StoreResult(x, x') ==> x'.result == x.result
    ensures StoreResult(x, x') ==> x.queue[0].PulseResult? && x'.published == x.published
    ensures forall n <- x.published :: n in x'.published && x'.published[n] == x.published[n]
  {
    hide Inv; hide Active; hide QueueInv; hide ActiveInv; hide ArmsInv; hide Next; hide IsGenuine;
    if m :| PostResult(x, m, x') {
      PostResultInv(x, m, x');
    }
  }

  lemma HandledStep(xs: seq<System>, j: nat, m: Measurement)
    requires j + 1 < |xs|
    ensures IsHandled(xs, j + 1, m) <==> IsHandled(xs, j, m) || HandlesAt(xs, j, m)
  {
    hide HandlesAt;
  }

  lemma HandledPublished(x: System, m: Measurement)
    requires SystemInv(x) && x.queue != [] && x.queue[0] == PulseResult(m)
    ensures m.submit in x.published && x.published[m.submit] == m && m.submit <= x.lastIssued
  {
    hide Inv; hide Active; hide ActiveInv; hide ArmsInv; hide IsGenuine; hide IsWaiting; hide AreDistinct;
    assert MessageInv(x.queue[0], x.ledQueue, x.issued, x.called, x.published);
  }

  /** The record is the handled result with the highest number, and a number has at most one handled result. */
  lemma {:induction false} RecordIsLatest(xs: seq<System>, j: nat)
    requires IsSystemRun(xs) && j < |xs|
    ensures xs[j].result == NO_RESULT || IsHandled(xs, j, xs[j].result)
    ensures forall m :: IsHandled(xs, j, m) ==>
              && m.submit <= xs[j].result.submit && m.submit in xs[j].published && xs[j].published[m.submit] == m
  {
    hide SystemInv; hide Step; hide StoreResult; hide HandlesAt; hide IsHandled;
    if j == 0 {
      NothingHandled(xs);
    } else {
      var x, x' := xs[j - 1], xs[j];
      RecordIsLatest(xs, j - 1);
      SystemRunInv(xs, j - 1);
      RecordStep(x, x');
      HandledStep(xs, j - 1, x'.result);
      StoredRecord(xs, j - 1);
      forall m | IsHandled(xs, j, m)
        ensures m.submit <= x'.result.submit && m.submit in x'.published && x'.published[m.submit] == m
      {
        HandledStep(xs, j - 1, m);
        HandledNow(xs, j - 1, m);
      }
    }
  }

  lemma NothingHandled(xs: seq<System>)
    requires IsSystemRun(xs)
    ensures xs[0].result == NO_RESULT && forall m :: !IsHandled(xs, 0, m)
  {
  }

  // The record after a step: the handled result, or the one before.
  lemma StoredRecord(xs: seq<System>, i: nat)
    requires i + 1 < |xs| && SystemInv(xs[i])
    requires !StoreResult(xs[i], xs[i + 1]) ==> xs[i + 1].result == xs[i].result
    ensures xs[i + 1].result == xs[i].result || HandlesAt(xs, i, xs[i + 1].result)
    ensures xs[i].result.submit <= xs[i + 1].result.submit
  {
    hide SystemInv;
  }

  lemma HandledNow(xs: seq<System>, i: nat, m: Measurement)
    requires i + 1 < |xs| && SystemInv(xs[i])
    requires StoreResult(xs[i], xs[i + 1]) ==> xs[i + 1].published == xs[i].published
    ensures HandlesAt(xs, i, m) ==>
              && m.submit <= xs[i + 1].result.submit
              && m.submit in xs[i + 1].published && xs[i + 1].published[m.submit] == m
  {
    hide SystemInv;
    if HandlesAt(xs, i, m) {
      HandledPublished(xs[i], m);
    }
  }

  /**
   * Over every run, the answer to any number is decided by the results handled so far: pending as long as none of that
   * number or a later one was, terminal once its own was, superseded once a later one was.
   */
  lemma AnswerIff(xs: seq<System>, j: nat, n: nat)
    requires IsSystemRun(xs) && j < |xs|
    ensures AnswerFor(xs[j], n) == Unknown <==> n == 0 || n > xs[j].lastIssued
    ensures AnswerFor(xs[j], n) == Pending
       <==> 0 < n <= xs[j].lastIssued && forall m :: IsHandled(xs, j, m) ==> m.submit < n
    ensures AnswerFor(xs[j], n) == Superseded
       <==> 0 < n <= xs[j].lastIssued && exists m :: IsHandled(xs, j, m) && m.submit > n
    ensures forall m ::
              IsHandled(xs, j, m) && m.submit == n > 0 && (forall l :: IsHandled(xs, j, l) ==> l.submit <= n) ==>
              AnswerFor(xs[j], n) == Terminal(m.state) && xs[j].result == m
    ensures AnswerFor(xs[j], n).Terminal? ==>
              IsHandled(xs, j, xs[j].result) && xs[j].result.submit == n
  {
    RecordIsLatest(xs, j);
    HandledIssued(xs, j);
    hide IsHandled; hide IsSystemRun;
  }

  lemma HandledIssued(xs: seq<System>, j: nat)
    requires IsSystemRun(xs) && j < |xs|
    ensures forall m :: IsHandled(xs, j, m) ==> m.submit <= xs[j].lastIssued
  {
    hide SystemInv; hide Step; hide SystemInit; hide HandlesAt; hide IsHandled;
    RecordIsLatest(xs, j);
    SystemRunInv(xs, j);
    PublishedIssued(xs[j]);
  }

  lemma PublishedIssued(x: System)
    requires SystemInv(x)
    ensures forall n <- x.published :: n <= x.lastIssued
  {
    hide Inv; hide Active; hide QueueInv; hide ActiveInv; hide ArmsInv; hide IsGenuine;
  }

  /** Once the result of a number has been handled it is served until a later one supersedes it: never pending again. */
  lemma HandledStaysServed(xs: seq<System>, i: nat, j: nat, m: Measurement)
    requires IsSystemRun(xs) && i < j < |xs| && HandlesAt(xs, i, m) && m.submit > 0
    ensures || (AnswerFor(xs[j], m.submit) == Terminal(m.state) && xs[j].result == m)
            || AnswerFor(xs[j], m.submit) == Superseded
  {
    assert IsHandled(xs, j, m);
    AnswerIff(xs, j, m.submit);
    HandledIssued(xs, j);
    RecordIsLatest(xs, j);
    hide IsHandled; hide IsSystemRun; hide HandlesAt;
  }

  // What a measured answer contains.

  /** Numbers count the requests, and a send carries an accepted timing set and the fixed pattern. */
  ghost predicate IssuedShape(issued: seq<Request>) {
    forall n :: 0 <= n < |issued| ==>
      && issued[n].submit == n + 1
      && (issued[n].SendRequest? ==>
            ValidateWs2812Timing(issued[n].timing) == TimingOk && issued[n].pixels == LED_PATTERN)
  }

  lemma IssuedStep(x: System, x': System)
    requires Step(x, x') && |x.issued| == x.lastIssued && IssuedShape(x.issued)
    ensures |x'.issued| == x'.lastIssued && IssuedShape(x'.issued)
  {
    hide Next; hide ValidateWs2812Timing;
  }

  lemma {:induction false} RunIssued(xs: seq<System>, i: nat)
    requires IsSystemRun(xs) && i < |xs|
    ensures |xs[i].issued| == xs[i].lastIssued && IssuedShape(xs[i].issued)
  {
    if i > 0 {
      hide Step; hide SystemInit; hide IssuedShape;
      RunIssued(xs, i - 1);
      IssuedStep(xs[i - 1], xs[i]);
    }
  }

  /** The fixed pattern holds both bits. */
  lemma PatternHasBothBits()
    ensures |LED_PATTERN| == 18 && HasBit(LED_PATTERN, false) && HasBit(LED_PATTERN, true)
  {
    assert |LED_PATTERN| == 18;
    assert LED_PATTERN[0] == 0 && LED_PATTERN[1] == 32;
    PowersOfTwo();
    assert !PixelBit(LED_PATTERN, 0);
    assert PixelBit(LED_PATTERN, 10);
  }

  /**
   * Every answer that serves a measured send: it comes from the capture armed for that very submission, and if that
   * capture is off by at most `d` ns, so are the two high times served, each for its own bit, and all 144 bits match.
   */
  lemma ServedSend(xs: seq<System>, i: nat, n: nat, d: nat) returns (k: nat)
    requires IsSystemRun(xs) && i < |xs| && AnswerFor(xs[i], n) == Terminal(MeasuredDone)
    ensures IsCaptureFor(xs[i], n, k) && xs[i].issued[n - 1].SendRequest?
    ensures var t, m := xs[i].issued[n - 1].timing, xs[i].result;
      var f := xs[i].pulse.history.frames[k + 1];
      && ValidateWs2812Timing(t) == TimingOk && |f| == 144 && m.submit == n && m.matchCount <= 144
      && (IsSentWithin(f, t, LED_PATTERN, d) ==>
            && t.bit0High - d <= m.bit0High <= t.bit0High + d && t.bit1High - d <= m.bit1High <= t.bit1High + d
            && m.matchCount == 144 && m.matchAvailable)
  {
    hide IsSystemRun; hide SystemInv; hide Step; hide MeasureSend; hide IsSentWithin; hide HasBit; hide Matches;
    hide ValidateWs2812Timing;
    RunIssued(xs, i);
    k := MeasuredAnswersAreGenuine(xs, i, n);
    var r, f := xs[i].issued[n - 1], xs[i].pulse.history.frames[k + 1];
    PatternHasBothBits();
    RequestKind(r, f);
    MatchesAtMost(n, f, r.timing, LED_PATTERN);
    if IsSentWithin(f, r.timing, LED_PATTERN, d) {
      SentWithin(n, f, r.timing, LED_PATTERN, d);
    }
  }

  lemma MatchesAtMost(submit: nat, f: Frame, t: Timing, p: Pixels)
    ensures MeasureSend(submit, f, t, p).matchCount <= 144 && MeasureSend(submit, f, t, p).submit == submit
  {
    SendDoneIff(submit, f, t, p);
    if |f| == 144 {
      MatchSetBound(f, t, p, |f|);
    }
    hide MatchSet; hide MeasureSend;
  }

  lemma {:induction false} MatchSetBound(f: Frame, t: Timing, p: Pixels, n: nat)
    requires n <= |f|
    ensures |MatchSet(f, t, p, n)| <= n
  {
    if n == 0 {
      assert MatchSet(f, t, p, 0) == {};
    } else {
      hide MatchSet; hide Decoded; hide PixelBit;
      MatchSetBound(f, t, p, n - 1);
      MatchSetStep(f, t, p, n - 1);
    }
  }

  /**
   * Every answer that serves a read: it comes from the capture armed for that very submission, which had at least eight
   * complete pulses; a source with two exact pulse shapes is served as it is, the shorter one as bit 0.
   */
  lemma ServedRead(xs: seq<System>, i: nat, n: nat, bits: seq<bool>, high0: nat, period0: nat, high1: nat, period1: nat,
      zero: nat, one: nat) returns (k: nat)
    requires IsSystemRun(xs) && i < |xs| && AnswerFor(xs[i], n) == Terminal(ReadDone)
    ensures IsCaptureFor(xs[i], n, k) && xs[i].issued[n - 1] == ReadRequest(n) && xs[i].result.submit == n
    ensures var f, m := xs[i].pulse.history.frames[k + 1], xs[i].result;
      && |UsableSet(f, |f|)| >= 8
      && (IsTwoShapes(f, bits, high0, period0, high1, period1, zero, one) ==>
            m == Measurement(n, ReadDone, high0, high1, 0, false, period0, period1))
  {
    hide IsSystemRun; hide SystemInv; hide Step; hide MeasureRead; hide IsTwoShapes; hide UsableSet;
    RunIssued(xs, i);
    k := MeasuredAnswersAreGenuine(xs, i, n);
    var r, f := xs[i].issued[n - 1], xs[i].pulse.history.frames[k + 1];
    RequestKind(r, f);
    ReadDoneIff(n, f);
    if IsTwoShapes(f, bits, high0, period0, high1, period1, zero, one) {
      ReadExactly(n, f, bits, high0, period0, high1, period1, zero, one);
    }
  }
}
