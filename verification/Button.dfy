/**
 * Hold and update-gesture detection of main/button/button.c. The code keeps the last five press starts in a ring of
 * wrapping 32-bit milliseconds and drops them when the button rests; the specification keeps all press starts since the
 * last hold or gesture in unbounded true time and never drops any.
 */
module Button {
  const PRESSES := 5
  const WINDOW_MS := 3000
  const WRAP := 0x1_0000_0000

  type Millis = t: int | 0 <= t < WRAP

  datatype ButtonEvent = NoEvent | PressStarted | HoldReached | UpdateGesture

  /** The 32-bit clock at a true time. */
  function Clock(time: nat): Millis { time % WRAP }

  /** uint32_t subtraction. */
  function Elapsed(now: Millis, since: Millis): Millis { (now - since) % WRAP }

  lemma ElapsedExact(now: nat, since: nat)
    requires since <= now < since + WRAP
    ensures Elapsed(Clock(now), Clock(since)) == now - since
  {
    var d := now - since;
    assert now % WRAP == (since % WRAP + d) % WRAP;
  }

  /** Compared over more than the wrap-around period, two instants can look close that are not. */
  lemma ElapsedAmbiguous(now: nat, since: nat)
    requires since + WRAP <= now <= since + WRAP + WINDOW_MS
    ensures Elapsed(Clock(now), Clock(since)) <= WINDOW_MS < now - since
  {
    ElapsedExact(now - WRAP, since);
    assert Clock(now - WRAP) == Clock(now);
  }

  // Specification in true time.

  datatype Gesture = Gesture(isPressed: bool, isHoldReported: bool, pressStart: nat, starts: seq<nat>)

  const RELEASED: Gesture := Gesture(false, false, 0, [])

  /** The last five press starts span at most the window. */
  predicate IsComplete(starts: seq<nat>) {
    |starts| >= 5 && starts[|starts| - 1] <= starts[|starts| - 5] + 3000
  }

  function SpecEvent(g: Gesture, isLow: bool, time: nat, hold: nat): ButtonEvent {
    if !isLow then if g.isPressed && !g.isHoldReported && IsComplete(g.starts) then UpdateGesture else NoEvent
    else if !g.isPressed then PressStarted
    else if !g.isHoldReported && time - g.pressStart >= hold then HoldReached
    else NoEvent
  }

  function SpecNext(g: Gesture, isLow: bool, time: nat, hold: nat): Gesture {
    match SpecEvent(g, isLow, time, hold)
    case UpdateGesture => g.(isPressed := false, isHoldReported := false, starts := [])
    case PressStarted => Gesture(true, false, time, g.starts + [time])
    case HoldReached => g.(isHoldReported := true, starts := [])
    case NoEvent => if isLow then g else g.(isPressed := false, isHoldReported := false)
  }

  datatype Sample = Sample(isLow: bool, time: nat)

  function SpecState(samples: seq<Sample>, n: nat, hold: nat): Gesture
    requires n <= |samples|
  {
    if n == 0 then RELEASED
        else SpecNext(SpecState(samples, n - 1, hold), samples[n - 1].isLow, samples[n - 1].time, hold)
  }

  /** Events of the first `n` samples. */
  function SpecEvents(samples: seq<Sample>, n: nat, hold: nat): (events: seq<ButtonEvent>)
    requires n <= |samples|
    ensures |events| == n
  {
    if n == 0 then []
    else SpecEvents(samples, n - 1, hold)
         + [SpecEvent(SpecState(samples, n - 1, hold), samples[n - 1].isLow, samples[n - 1].time, hold)]
  }

  function TimeBefore(start: nat, samples: seq<Sample>, i: nat): nat
    requires i <= |samples|
  {
    if i == 0 then start else samples[i - 1].time
  }

  /** Samples follow each other in time with gaps of at most `gap`. */
  predicate IsSampled(start: nat, samples: seq<Sample>, gap: nat) {
    forall i :: 0 <= i < |samples| ==>
        TimeBefore(start, samples, i) < samples[i].time <= TimeBefore(start, samples, i) + gap
  }

  /** Five press starts that the code still remembers can never be a wrap-around apart. */
  predicate IsSafe(hold: nat, gap: nat) {
    4 * (hold + WINDOW_MS + 2 * gap) < WRAP
  }

  // What links the ring to the specification.

  /** How many press starts are newer than the one at ring position `p`. */
  function Age(p: nat, next: nat): nat
    requires p < PRESSES && next < PRESSES
  {
    if p < next then next - 1 - p else next + PRESSES - 1 - p
  }

  function After(next: nat): nat
    requires next < PRESSES
  {
    (next + 1) % PRESSES
  }

  lemma AgesAfter(p: nat, next: nat)
    requires p < PRESSES && next < PRESSES
    ensures After(next) < PRESSES && Age(next, After(next)) == 0
    ensures p != next ==> Age(p, After(next)) == Age(p, next) + 1
    ensures Age(next, next) == PRESSES - 1 && (next + PRESSES - 1) % PRESSES < PRESSES
    ensures Age((next + PRESSES - 1) % PRESSES, next) == 0
  {
  }

  /** The ring holds the newest `n` of the remembered press starts `live`. */
  ghost predicate InRing(ring: seq<Millis>, next: nat, live: seq<nat>, n: nat)
    requires |ring| == PRESSES && next < PRESSES && n <= |live|
  {
    forall p :: 0 <= p < PRESSES && Age(p, next) < n ==> ring[p] == Clock(live[|live| - 1 - Age(p, next)])
  }

  lemma PushInRing(ring: seq<Millis>, next: nat, live: seq<nat>, n: nat, time: nat)
    requires |ring| == PRESSES && next < PRESSES && n == Smaller(PRESSES, |live|) && InRing(ring, next, live, n)
    ensures After(next) < PRESSES
    ensures InRing(ring[next := Clock(time)], After(next), live + [time], Smaller(PRESSES, |live| + 1))
  {
    hide Clock; hide After; hide Age;
    AgesAfter(next, next);
    forall p | 0 <= p < PRESSES && Age(p, After(next)) < Smaller(PRESSES, |live| + 1)
      ensures ring[next := Clock(time)][p] == Clock((live + [time])[|live| - Age(p, After(next))])
    {
      AgesAfter(p, next);
    }
  }

  /** The ring test is the gesture test on the remembered press starts. */
  lemma RingTestExact(ring: seq<Millis>, next: nat, live: seq<nat>, spacing: nat)
    requires |ring| == PRESSES && next < PRESSES && |live| >= PRESSES && InRing(ring, next, live, PRESSES)
    requires AreSpaced(live, spacing) && 4 * spacing < WRAP
    ensures Elapsed(ring[(next + PRESSES - 1) % PRESSES], ring[next]) <= WINDOW_MS <==> IsComplete(live)
  {
    hide Clock; hide Age; hide Elapsed;
    AgesAfter(next, next);
    SpanBound(live, spacing);
    ElapsedExact(live[|live| - 1], live[|live| - PRESSES]);
  }

  ghost predicate AreSpaced(starts: seq<nat>, spacing: nat) {
    forall i :: 0 <= i < |starts| - 1 ==> starts[i] < starts[i + 1] < starts[i] + spacing
  }

  ghost predicate AreIncreasing(starts: seq<nat>) {
    forall i, j :: 0 <= i < j < |starts| ==> starts[i] < starts[j]
  }

  function Smaller(a: nat, b: nat): nat { if a < b then a else b }

  /** A dropped press start lies more than a window before every remembered or future one. */
  ghost predicate IsDead(starts: seq<nat>, dropped: nat, time: nat)
    requires dropped <= |starts|
  {
    dropped > 0 ==>
      if dropped < |starts| then starts[dropped] - starts[dropped - 1] > WINDOW_MS
          else time - starts[dropped - 1] > WINDOW_MS
  }

  /** So dropping it never changes whether a gesture is complete. */
  lemma DroppedStartsNeverMatter(starts: seq<nat>, dropped: nat, time: nat)
    requires dropped < |starts| && AreIncreasing(starts) && IsDead(starts, dropped, time)
    ensures IsComplete(starts) <==> IsComplete(starts[dropped..])
  {
    if |starts| >= PRESSES && |starts| - PRESSES < dropped {
      assert starts[|starts| - PRESSES] <= starts[dropped - 1];
      assert starts[dropped] <= starts[|starts| - 1];
    }
  }

  lemma SpanBound(live: seq<nat>, spacing: nat)
    requires |live| >= PRESSES && AreSpaced(live, spacing)
    ensures live[|live| - PRESSES] <= live[|live| - 1] < live[|live| - PRESSES] + 4 * spacing
  {
    var n := |live|;
    assert live[n - 5] < live[n - 4] < live[n - 5] + spacing;
    assert live[n - 4] < live[n - 3] < live[n - 4] + spacing;
    assert live[n - 3] < live[n - 2] < live[n - 3] + spacing;
    assert live[n - 2] < live[n - 1] < live[n - 2] + spacing;
  }

  lemma StartsExtended(starts: seq<nat>, now: nat)
    requires AreIncreasing(starts) && (starts != [] ==> starts[|starts| - 1] < now)
    ensures AreIncreasing(starts + [now])
  {
  }

  lemma SpacingExtended(live: seq<nat>, now: nat, spacing: nat)
    requires AreSpaced(live, spacing) && (live != [] ==> live[|live| - 1] < now < live[|live| - 1] + spacing)
    ensures AreSpaced(live + [now], spacing)
  {
  }

  lemma DeadExtended(starts: seq<nat>, dropped: nat, time: nat, now: nat)
    requires dropped <= |starts| && IsDead(starts, dropped, time) && time <= now
    ensures IsDead(starts + [now], dropped, now)
  {
  }

  lemma NothingRemembered(ring: seq<Millis>, starts: seq<nat>, spacing: nat)
    requires |ring| == PRESSES
    ensures InRing(ring, 0, starts[|starts|..], 0) && AreSpaced(starts[|starts|..], spacing)
  {
  }

  // The detector on values: what one sample does to the fields. `hasReset` is the idle reset, which the code has.

  datatype Memory = Memory(isPressed: bool, isHoldReported: bool, pressStartMs: Millis, ring: seq<Millis>, next: nat,
                           presses: nat, releaseMs: Millis)

  const IDLE: Memory := Memory(false, false, 0, [0, 0, 0, 0, 0], 0, 0, 0)

  predicate IsRing(m: Memory) { |m.ring| == PRESSES && m.next < PRESSES }

  predicate IsRingComplete(m: Memory)
    requires IsRing(m)
  {
    m.presses >= PRESSES && Elapsed(m.ring[(m.next + PRESSES - 1) % PRESSES], m.ring[m.next]) <= WINDOW_MS
  }

  predicate Completes(m: Memory)
    requires IsRing(m)
  {
    m.isPressed && !m.isHoldReported && IsRingComplete(m)
  }

  function AfterHigh(m: Memory, nowMs: Millis, hasReset: bool): (r: Memory)
    requires IsRing(m)
    ensures IsRing(r)
  {
    var up := m.(isPressed := false, isHoldReported := false, releaseMs := if m.isPressed then nowMs else m.releaseMs);
    var isIdle := hasReset && !m.isPressed && m.presses > 0 && Elapsed(nowMs, m.releaseMs) >= WINDOW_MS;
    if Completes(m) || isIdle then up.(presses := 0, next := 0) else up
  }

  function AfterLow(m: Memory, nowMs: Millis, hold: Millis): (r: Memory)
    requires IsRing(m)
    ensures IsRing(r)
  {
    if !m.isPressed then
      m.(isPressed := true, isHoldReported := false, pressStartMs := nowMs, ring := m.ring[m.next := nowMs],
         next := (m.next + 1) % PRESSES, presses := Smaller(PRESSES, m.presses + 1))
    else if !m.isHoldReported && Elapsed(nowMs, m.pressStartMs) >= hold then
      m.(isHoldReported := true, presses := 0, next := 0)
    else m
  }

  function EventOf(m: Memory, isLow: bool, nowMs: Millis, hold: Millis): ButtonEvent
    requires IsRing(m)
  {
    if !isLow then if Completes(m) then UpdateGesture else NoEvent
    else if !m.isPressed then PressStarted
    else if !m.isHoldReported && Elapsed(nowMs, m.pressStartMs) >= hold then HoldReached
    else NoEvent
  }

  function AfterSample(m: Memory, isLow: bool, nowMs: Millis, hold: Millis, hasReset: bool): (r: Memory)
    requires IsRing(m)
    ensures IsRing(r)
  {
    if isLow then AfterLow(m, nowMs, hold) else AfterHigh(m, nowMs, hasReset)
  }

  class ButtonState {
    var isPressed: bool
    var isHoldReported: bool
    var pressStartMs: Millis
    const ring: array<Millis>
    var next: nat
    var presses: nat
    var releaseMs: Millis
    ghost var spec: Gesture
    ghost var dropped: nat          // press starts forgotten by the idle reset
    ghost var released: nat         // true time of the last release
    ghost var time: nat             // true time of the last sample

    ghost function Fields(): Memory
      reads this, ring
    {
      Memory(isPressed, isHoldReported, pressStartMs, ring[..], next, presses, releaseMs)
    }

    ghost predicate RingInv()
      reads this, ring
    {
      && ring.Length == PRESSES && next < PRESSES && dropped <= |spec.starts|
      && presses == Smaller(PRESSES, |spec.starts| - dropped)
      && InRing(ring[..], next, spec.starts[dropped..], presses)
    }

    ghost predicate TimeInv(hold: nat, gap: nat)
      requires dropped <= |spec.starts|
      reads this
    {
      && AreIncreasing(spec.starts) && AreSpaced(spec.starts[dropped..], hold + WINDOW_MS + 2 * gap)
      && IsDead(spec.starts, dropped, time)
      && (isPressed && !isHoldReported ==>
            && dropped < |spec.starts| && spec.starts[|spec.starts| - 1] == spec.pressStart
            && spec.pressStart <= time && (time == spec.pressStart || time - spec.pressStart < hold))
      && (isPressed && isHoldReported ==> spec.starts == [])
      && (!isPressed && dropped < |spec.starts| ==>
            && releaseMs == Clock(released)
            && spec.starts[|spec.starts| - 1] < released <= spec.starts[|spec.starts| - 1] + hold + gap
            && released <= time && (time == released || time - released < WINDOW_MS))
      && (spec.starts != [] ==> spec.starts[|spec.starts| - 1] <= time)
    }

    ghost predicate Valid(hold: nat, gap: nat)
      reads this, ring
    {
      && IsSafe(hold, gap) && RingInv() && TimeInv(hold, gap)
      && spec.isPressed == isPressed && spec.isHoldReported == isHoldReported
      && (isPressed ==> pressStartMs == Clock(spec.pressStart))
    }

    constructor (ghost start: nat, ghost hold: nat, ghost gap: nat)
      requires IsSafe(hold, gap)
      ensures Valid(hold, gap) && spec == RELEASED && time == start && fresh(ring) && Fields() == IDLE
    {
      isPressed, isHoldReported, pressStartMs, next, presses, releaseMs := false, false, 0, 0, 0, 0;
      ring := new Millis[PRESSES](_ => 0);
      spec, dropped, released, time := RELEASED, 0, 0, start;
    }

    method ResetGesture()
      modifies this`presses, this`next
      ensures presses == next == 0
    {
      presses, next := 0, 0;
    }

    method IsGestureComplete(ghost hold: nat, ghost gap: nat) returns (complete: bool)
      requires Valid(hold, gap) && isPressed && !isHoldReported
      ensures complete <==> IsComplete(spec.starts)
      ensures complete <==> IsRingComplete(Fields())
    {
      hide Clock; hide Elapsed; hide IsDead; hide AreIncreasing; hide AreSpaced; hide InRing;
      DroppedStartsNeverMatter(spec.starts, dropped, time);
      if presses < PRESSES {
        return false;
      }
      RingTestExact(ring[..], next, spec.starts[dropped..], hold + WINDOW_MS + 2 * gap);
      return Elapsed(ring[(next + PRESSES - 1) % PRESSES], ring[next]) <= WINDOW_MS;
    }

    method CountGesturePress(nowMs: Millis, ghost now: nat)
      requires RingInv() && nowMs == Clock(now)
      modifies this`next, this`presses, ring, this`spec
      ensures spec == old(spec).(starts := old(spec.starts) + [now]) && RingInv()
      ensures Fields() == old(Fields()).(ring := old(ring[..])[old(next) := nowMs], next := (old(next) + 1) % PRESSES,
                                         presses := Smaller(PRESSES, old(presses) + 1))
    {
      hide Clock; hide Age; hide InRing;
      PushInRing(ring[..], next, spec.starts[dropped..], presses, now);
      assert (spec.starts + [now])[dropped..] == spec.starts[dropped..] + [now];
      ring[next] := nowMs;
      assert ring[..] == old(ring[..])[old(next) := nowMs];
      next := (next + 1) % PRESSES;
      if presses < PRESSES {
        presses := presses + 1;
      }
      spec := spec.(starts := spec.starts + [now]);
    }

    method ProcessGestureRelease(nowMs: Millis, hold: Millis, ghost now: nat, ghost gap: nat)
        returns (event: ButtonEvent)
      requires Valid(hold, gap) && time < now <= time + gap && nowMs == Clock(now)
      modifies this`presses, this`next, this`releaseMs, this`dropped, this`released
      ensures event == SpecEvent(spec, false, now, hold)
      ensures event == UpdateGesture ==> presses == next == 0
      ensures event == NoEvent ==> RingInv() && ReleaseInv(hold, gap, now)
      ensures Fields().(isPressed := false, isHoldReported := false) == AfterHigh(old(Fields()), nowMs, true)
      ensures event == EventOf(old(Fields()), false, nowMs, hold)
    {
      hide Clock; hide Age; hide InRing; hide AreSpaced; hide AreIncreasing; hide IsComplete; hide Elapsed;
      NothingRemembered(ring[..], spec.starts, hold + WINDOW_MS + 2 * gap);
      if isPressed {
        releaseMs := nowMs;
        released := now;
        if !isHoldReported {
          var complete := IsGestureComplete(hold, gap);
          if complete {
            ResetGesture();
            return UpdateGesture;
          }
        }
      } else if presses > 0 {
        ElapsedExact(now, released);
        if Elapsed(nowMs, releaseMs) >= WINDOW_MS {
          ResetGesture();
          dropped := |spec.starts|;
        }
      }
      return NoEvent;
    }

    // The timing facts that hold after a high sample at `now` without a gesture.
    ghost predicate ReleaseInv(hold: nat, gap: nat, now: nat)
      requires dropped <= |spec.starts|
      reads this
    {
      && AreSpaced(spec.starts[dropped..], hold + WINDOW_MS + 2 * gap) && IsDead(spec.starts, dropped, now)
      && (dropped < |spec.starts| ==>
            && releaseMs == Clock(released)
            && spec.starts[|spec.starts| - 1] < released <= spec.starts[|spec.starts| - 1] + hold + gap
            && released <= now && (now == released || now - released < WINDOW_MS))
    }

    // A press start extends the remembered ones: it follows within the spacing, or after a dropped one by a window.
    lemma PressExtends(hold: nat, gap: nat, now: nat)
      requires Valid(hold, gap) && !isPressed && time < now <= time + gap
      ensures var starts := spec.starts + [now];
        && AreIncreasing(starts) && AreSpaced(starts[dropped..], hold + WINDOW_MS + 2 * gap)
            && IsDead(starts, dropped, now)
    {
      hide Clock; hide Age; hide InRing; hide AreSpaced; hide AreIncreasing; hide IsDead;
      assert (spec.starts + [now])[dropped..] == spec.starts[dropped..] + [now];
      if dropped < |spec.starts| {
        assert spec.starts[dropped..][|spec.starts[dropped..]| - 1] == spec.starts[|spec.starts| - 1];
      }
      StartsExtended(spec.starts, now);
      SpacingExtended(spec.starts[dropped..], now, hold + WINDOW_MS + 2 * gap);
      DeadExtended(spec.starts, dropped, time, now);
    }

    method StartPress(nowMs: Millis, ghost hold: nat, ghost now: nat, ghost gap: nat)
      requires Valid(hold, gap) && !isPressed && time < now <= time + gap && nowMs == Clock(now)
      modifies this, ring
      ensures Valid(hold, gap) && time == now
      ensures spec == Gesture(true, false, now, old(spec.starts) + [now])
      ensures forall hold: Millis :: Fields() == AfterLow(old(Fields()), nowMs, hold)
    {
      hide Clock; hide Age; hide InRing; hide AreSpaced; hide AreIncreasing; hide IsDead;
      PressExtends(hold, gap, now);
      isPressed, isHoldReported, pressStartMs := true, false, nowMs;
      CountGesturePress(nowMs, now);
      spec := spec.(isPressed := true, isHoldReported := false, pressStart := now);
      time := now;
    }

    method Release(nowMs: Millis, hold: Millis, ghost now: nat, ghost gap: nat) returns (event: ButtonEvent)
      requires Valid(hold, gap) && time < now <= time + gap && nowMs == Clock(now)
      modifies this
      ensures Valid(hold, gap) && time == now
      ensures event == SpecEvent(old(spec), false, now, hold) && spec == SpecNext(old(spec), false, now, hold)
      ensures Fields() == AfterHigh(old(Fields()), nowMs, true) && event == EventOf(old(Fields()), false, nowMs, hold)
    {
      hide Clock; hide Age; hide InRing; hide AreSpaced; hide AreIncreasing; hide IsComplete; hide Elapsed;
      hide AfterHigh; hide EventOf; hide IsDead;
      event := ProcessGestureRelease(nowMs, hold, now, gap);
      isPressed := false;
      isHoldReported := false;
      spec := SpecNext(spec, false, now, hold);
      dropped := if event == UpdateGesture then 0 else dropped;
      time := now;
      Emptied(ring[..], hold + WINDOW_MS + 2 * gap);
    }

    method KeepPressed(nowMs: Millis, hold: Millis, ghost now: nat, ghost gap: nat) returns (event: ButtonEvent)
      requires Valid(hold, gap) && isPressed && time < now <= time + gap && nowMs == Clock(now)
      modifies this
      ensures Valid(hold, gap) && time == now
      ensures event == SpecEvent(old(spec), true, now, hold) && spec == SpecNext(old(spec), true, now, hold)
      ensures Fields() == AfterLow(old(Fields()), nowMs, hold) && event == EventOf(old(Fields()), true, nowMs, hold)
    {
      hide Clock; hide Age; hide InRing; hide AreSpaced; hide AreIncreasing; hide IsComplete; hide Elapsed; hide IsDead;
      if !isHoldReported {
        ElapsedExact(now, spec.pressStart);
      }
      NothingDead(spec.starts, dropped, time, now);
      time := now;
      if !isHoldReported && Elapsed(nowMs, pressStartMs) >= hold {
        isHoldReported := true;
        ResetGesture(); // a provisioning hold is never part of the gesture
        spec, dropped := SpecNext(spec, true, now, hold), 0;
        Emptied(ring[..], hold + WINDOW_MS + 2 * gap);
        return HoldReached;
      }
      return NoEvent;
    }

    /** One sample: the event is the specification's, and the link to its state is kept. */
    method ProcessButtonSample(isLow: bool, nowMs: Millis, hold: Millis, ghost now: nat, ghost gap: nat)
        returns (event: ButtonEvent)
      requires Valid(hold, gap) && time < now <= time + gap && nowMs == Clock(now)
      modifies this, ring
      ensures Valid(hold, gap) && time == now
      ensures event == SpecEvent(old(spec), isLow, now, hold)
      ensures spec == SpecNext(old(spec), isLow, now, hold)
      ensures event == EventOf(old(Fields()), isLow, nowMs, hold)
      ensures Fields() == AfterSample(old(Fields()), isLow, nowMs, hold, true)
    {
      hide Clock; hide Age; hide InRing; hide AreSpaced; hide AreIncreasing; hide IsComplete; hide Elapsed; hide IsDead;
      if !isLow {
        event := Release(nowMs, hold, now, gap);
      } else if !isPressed {
        StartPress(nowMs, hold, now, gap);
        event := PressStarted;
      } else {
        event := KeepPressed(nowMs, hold, now, gap);
      }
    }
  }

  lemma Emptied(ring: seq<Millis>, spacing: nat)
    requires |ring| == PRESSES
    ensures InRing(ring, 0, [], 0) && AreSpaced([], spacing) && AreIncreasing([]) && IsDead([], 0, 0)
    ensures forall time :: IsDead([], 0, time)
  {
  }

  lemma NothingDead(starts: seq<nat>, dropped: nat, time: nat, now: nat)
    requires dropped <= |starts| && IsDead(starts, dropped, time) && time <= now
    ensures IsDead(starts, dropped, now)
  {
  }

  // What the idle reset is for.

  /** Fields after the first `n` samples, with or without the idle reset. */
  function FieldsAfter(samples: seq<Sample>, n: nat, hold: Millis, hasReset: bool): (m: Memory)
    requires n <= |samples|
    ensures IsRing(m)
  {
    if n == 0 then IDLE
    else
      var last := samples[n - 1];
      AfterSample(FieldsAfter(samples, n - 1, hold, hasReset), last.isLow, Clock(last.time), hold, hasReset)
  }

  /** Events of the first `n` samples, with or without the idle reset. */
  function EventsOf(samples: seq<Sample>, n: nat, hold: Millis, hasReset: bool): (events: seq<ButtonEvent>)
    requires n <= |samples|
    ensures |events| == n
  {
    if n == 0 then []
    else
      var last := samples[n - 1];
      EventsOf(samples, n - 1, hold, hasReset)
      + [EventOf(FieldsAfter(samples, n - 1, hold, hasReset), last.isLow, Clock(last.time), hold)]
  }

  const STEP_MS := 128
  const FIFTH_PRESS := 8 + WRAP / STEP_MS

  /** Four quick presses, a rest of a whole wrap-around period, and a fifth press; sampled every 128 ms. */
  function LateFifthPress(start: nat): (samples: seq<Sample>)
    ensures |samples| == FIFTH_PRESS + 2
  {
    seq(FIFTH_PRESS + 2, j requires 0 <= j => Sample(j in {0, 2, 4, 6, FIFTH_PRESS}, TimeOf(start, j)))
  }

  function TimeOf(start: nat, j: nat): nat { start + STEP_MS * (j + 1) }

  lemma SampleAt(start: nat, j: nat)
    requires j < FIFTH_PRESS + 2
    ensures LateFifthPress(start)[j] == Sample(j in {0, 2, 4, 6, FIFTH_PRESS}, TimeOf(start, j))
  {
  }

  /** A short press, first without and then with the release: one more start in the ring. */
  function Pressed(m: Memory, start: nat, j: nat): (r: Memory)
    requires IsRing(m)
    ensures IsRing(r)
  {
    m.(isPressed := true, isHoldReported := false, pressStartMs := Clock(TimeOf(start, j)),
       ring := m.ring[m.next := Clock(TimeOf(start, j))], next := (m.next + 1) % PRESSES,
       presses := Smaller(PRESSES, m.presses + 1))
  }

  function PressedOnce(m: Memory, start: nat, j: nat): (r: Memory)
    requires IsRing(m)
    ensures IsRing(r)
  {
    Pressed(m, start, j).(isPressed := false, releaseMs := Clock(TimeOf(start, j + 1)))
  }

  predicate IsResting(m: Memory) { !m.isPressed && !m.isHoldReported }

  lemma ShortPress(start: nat, hold: Millis, j: nat)
    requires j in {0, 2, 4, 6}
    requires IsResting(FieldsAfter(LateFifthPress(start), j, hold, false))
    requires FieldsAfter(LateFifthPress(start), j, hold, false).presses < 4
    ensures FieldsAfter(LateFifthPress(start), j + 2, hold, false) ==
              PressedOnce(FieldsAfter(LateFifthPress(start), j, hold, false), start, j)
  {
    SampleAt(start, j);
    SampleAt(start, j + 1);
    hide Clock; hide Elapsed; hide LateFifthPress;
  }

  function PressedFourTimes(start: nat): (m: Memory)
    ensures IsRing(m)
  {
    PressedOnce(PressedOnce(PressedOnce(PressedOnce(IDLE, start, 0), start, 2), start, 4), start, 6)
  }

  lemma FourStarts(start: nat)
    ensures var m := PressedFourTimes(start);
      IsResting(m) && m.presses == m.next == 4 && m.ring[0] == Clock(TimeOf(start, 0))
    ensures var m := PressedOnce(IDLE, start, 0); IsResting(m) && m.presses == 1
    ensures var m := PressedOnce(PressedOnce(IDLE, start, 0), start, 2); IsResting(m) && m.presses == 2
    ensures var m := PressedOnce(PressedOnce(PressedOnce(IDLE, start, 0), start, 2), start, 4);
      IsResting(m) && m.presses == 3
  {
    hide Clock;
  }

  /** After the four presses: four starts in the ring, and nothing pressed. */
  lemma FourPresses(start: nat, hold: Millis)
    ensures FieldsAfter(LateFifthPress(start), 8, hold, false) == PressedFourTimes(start)
  {
    FourStarts(start);
    assert FieldsAfter(LateFifthPress(start), 0, hold, false) == IDLE;
    assert IsResting(IDLE) && IDLE.presses == 0;
    hide *;
    ShortPress(start, hold, 0);
    ShortPress(start, hold, 2);
    ShortPress(start, hold, 4);
    ShortPress(start, hold, 6);
    FourTimes(start);
  }

  lemma FourTimes(start: nat)
    ensures PressedFourTimes(start) ==
              PressedOnce(PressedOnce(PressedOnce(PressedOnce(IDLE, start, 0), start, 2), start, 4), start, 6)
  {
  }

  /** Without the reset a rest changes nothing, however long. */
  lemma {:induction false} RestKeepsRing(start: nat, hold: Millis, n: nat)
    requires 8 <= n <= FIFTH_PRESS
    requires IsResting(FieldsAfter(LateFifthPress(start), 8, hold, false))
    ensures FieldsAfter(LateFifthPress(start), n, hold, false) == FieldsAfter(LateFifthPress(start), 8, hold, false)
  {
    hide Clock; hide Elapsed; hide LateFifthPress;
    if n > 8 {
      RestKeepsRing(start, hold, n - 1);
      SampleAt(start, n - 1);
    }
  }

  /** In true time: five starts, the last one far from the others. */
  lemma SpecPress(start: nat, hold: Millis, j: nat)
    requires j in {0, 2, 4, 6, FIFTH_PRESS}
    requires var g := SpecState(LateFifthPress(start), j, hold); !g.isPressed && !g.isHoldReported
    ensures SpecState(LateFifthPress(start), j + 1, hold) ==
              var g := SpecState(LateFifthPress(start), j, hold);
              Gesture(true, false, TimeOf(start, j), g.starts + [TimeOf(start, j)])
  {
    SampleAt(start, j);
    hide LateFifthPress;
  }

  lemma SpecShortPress(start: nat, hold: Millis, j: nat)
    requires j in {0, 2, 4, 6}
    requires var g := SpecState(LateFifthPress(start), j, hold); !g.isPressed && !g.isHoldReported && |g.starts| < 4
    ensures SpecState(LateFifthPress(start), j + 2, hold) ==
              var g := SpecState(LateFifthPress(start), j, hold);
              Gesture(false, false, TimeOf(start, j), g.starts + [TimeOf(start, j)])
  {
    SampleAt(start, j + 1);
    SpecPress(start, hold, j);
    hide LateFifthPress;
  }

  lemma SpecFourPresses(start: nat, hold: Millis)
    ensures var g := SpecState(LateFifthPress(start), 8, hold);
      && !g.isPressed && !g.isHoldReported
      && g.starts == [TimeOf(start, 0), TimeOf(start, 2), TimeOf(start, 4), TimeOf(start, 6)]
  {
    hide LateFifthPress; hide TimeOf;
    SpecShortPress(start, hold, 0);
    SpecShortPress(start, hold, 2);
    SpecShortPress(start, hold, 4);
    SpecShortPress(start, hold, 6);
  }

  lemma {:induction false} SpecRests(start: nat, hold: Millis, n: nat)
    requires 8 <= n <= FIFTH_PRESS
    ensures SpecState(LateFifthPress(start), n, hold) == SpecState(LateFifthPress(start), 8, hold)
  {
    hide LateFifthPress; hide TimeOf;
    SpecFourPresses(start, hold);
    if n > 8 {
      SpecRests(start, hold, n - 1);
      SampleAt(start, n - 1);
    }
  }

  /**
   * Without the idle reset the detector fires falsely: for every start time and hold time there is a run of evenly
   * spaced samples on which the ring test accepts although the fifth press came a whole wrap-around period after the
   * first.
   */
  lemma StaleRingFalselyMatches(start: nat, hold: Millis)
    ensures var samples := LateFifthPress(start);
      && IsSampled(start, samples, STEP_MS)
      && EventsOf(samples, |samples|, hold, false)[FIFTH_PRESS + 1] == UpdateGesture
      && SpecEvents(samples, |samples|, hold)[FIFTH_PRESS + 1] == NoEvent
  {
    hide *;
    EvenlySampled(start);
    FalseMatch(start, hold);
    NoTrueGesture(start, hold);
  }

  lemma EvenlySampled(start: nat)
    ensures IsSampled(start, LateFifthPress(start), STEP_MS)
  {
  }

  lemma FalseMatch(start: nat, hold: Millis)
    ensures EventsOf(LateFifthPress(start), FIFTH_PRESS + 2, hold, false)[FIFTH_PRESS + 1] == UpdateGesture
  {
    FourStarts(start);
    FourPresses(start, hold);
    RestKeepsRing(start, hold, FIFTH_PRESS);
    SampleAt(start, FIFTH_PRESS);
    SampleAt(start, FIFTH_PRESS + 1);
    ElapsedAmbiguous(TimeOf(start, FIFTH_PRESS), TimeOf(start, 0));
    hide Clock; hide Elapsed; hide LateFifthPress; hide TimeOf; hide PressedFourTimes;
  }

  lemma NoTrueGesture(start: nat, hold: Millis)
    ensures SpecEvents(LateFifthPress(start), FIFTH_PRESS + 2, hold)[FIFTH_PRESS + 1] == NoEvent
  {
    SpecFourPresses(start, hold);
    SpecRests(start, hold, FIFTH_PRESS);
    SpecPress(start, hold, FIFTH_PRESS);
    SampleAt(start, FIFTH_PRESS + 1);
    hide LateFifthPress;
  }

  lemma NoSamples(samples: seq<Sample>, hold: Millis)
    ensures SpecState(samples, 0, hold) == RELEASED && FieldsAfter(samples, 0, hold, true) == IDLE
    ensures SpecEvents(samples, 0, hold) == EventsOf(samples, 0, hold, true) == []
  {
  }

  lemma OneSample(samples: seq<Sample>, i: nat, hold: Millis)
    requires i < |samples|
    ensures var g, m, x := SpecState(samples, i, hold), FieldsAfter(samples, i, hold, true), samples[i];
      && SpecState(samples, i + 1, hold) == SpecNext(g, x.isLow, x.time, hold)
      && SpecEvents(samples, i + 1, hold) == SpecEvents(samples, i, hold) + [SpecEvent(g, x.isLow, x.time, hold)]
      && FieldsAfter(samples, i + 1, hold, true) == AfterSample(m, x.isLow, Clock(x.time), hold, true)
      && EventsOf(samples, i + 1, hold, true) ==
           EventsOf(samples, i, hold, true) + [EventOf(m, x.isLow, Clock(x.time), hold)]
  {
    hide SpecNext; hide SpecEvent; hide AfterSample; hide EventOf;
  }

  /**
   * Over every run the code emits exactly the events of the specification, for samples that follow each other by at
   * most `gap`: the ring, the wrapping clock and the idle reset are invisible.
   */
  method RunButton(samples: seq<Sample>, hold: Millis, ghost start: nat, ghost gap: nat)
      returns (events: seq<ButtonEvent>)
    requires IsSafe(hold, gap) && IsSampled(start, samples, gap)
    ensures events == SpecEvents(samples, |samples|, hold)
    ensures events == EventsOf(samples, |samples|, hold, true)
  {
    hide SpecEvent; hide SpecNext; hide Clock; hide Age; hide InRing; hide AreSpaced; hide AreIncreasing; hide IsDead;
    hide EventOf; hide AfterSample; hide IsComplete; hide Elapsed; hide IsSafe; hide ButtonState.Valid;
    hide ButtonState.Fields;
    hide SpecState; hide SpecEvents; hide FieldsAfter; hide EventsOf;
    NoSamples(samples, hold);
    var state := new ButtonState(start, hold, gap);
    events := [];
    for i := 0 to |samples|
      invariant fresh(state) && fresh(state.ring) && state.Valid(hold, gap)
      invariant state.time == TimeBefore(start, samples, i)
      invariant state.spec == SpecState(samples, i, hold) && events == SpecEvents(samples, i, hold)
      invariant state.Fields() == FieldsAfter(samples, i, hold, true)
      invariant events == EventsOf(samples, i, hold, true)
    {
      OneSample(samples, i, hold);
      var event := state.ProcessButtonSample(samples[i].isLow, Clock(samples[i].time), hold, samples[i].time, gap);
      events := events + [event];
    }
  }
}
