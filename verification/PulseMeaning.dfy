/**
 * What a published measurement contains, said about the captured symbols themselves: their 25 ns ticks, the pixel bits
 * that were sent, and the numbers of main/rmt_pulse_monitor/rmt_pulse_monitor.c.
 */
module PulseMeaning {
  import opened Ws2812
  import opened PulseDecode
  import opened PulseMonitor

  // Sends.

  /** A pulse is bit 0 up to the midpoint of the two commanded high times, however these are ordered. */
  lemma DecodesByMidpoint(s: Symbol, bit0High: nat, bit1High: nat)
    ensures DecodeWs2812Symbol(s, bit0High, bit1High) == Invalid <==> !s.level0
    ensures s.level0 && bit0High < bit1High ==>
              (DecodeWs2812Symbol(s, bit0High, bit1High) == Bit0 <==> 50 * s.duration0 <= bit0High + bit1High)
    ensures s.level0 && bit0High > bit1High ==>
              (DecodeWs2812Symbol(s, bit0High, bit1High) == Bit0 <==> 50 * s.duration0 >= bit0High + bit1High)
    ensures s.level0 && bit0High == bit1High ==> DecodeWs2812Symbol(s, bit0High, bit1High) == Bit0
  {
    DurationsExact(s);
  }

  /** Symbol `i` is high for the time commanded for pixel bit `i`, within `d` ns. */
  ghost predicate IsSentSymbol(f: Frame, t: Timing, p: Pixels, d: nat, i: nat)
    requires i < |f|
  {
    && f[i].level0
    && if PixelBit(p, i) then t.bit1High - d <= 25 * f[i].duration0 <= t.bit1High + d
       else t.bit0High - d <= 25 * f[i].duration0 <= t.bit0High + d
  }

  /** A complete capture of the frame sent, every high time within `d` ns, and `d` small enough to tell bits apart. */
  ghost predicate IsSentWithin(f: Frame, t: Timing, p: Pixels, d: nat) {
    && |f| == 144 && 2 * d < (if t.bit0High < t.bit1High then t.bit1High - t.bit0High else t.bit0High - t.bit1High)
    && forall i :: 0 <= i < |f| ==> IsSentSymbol(f, t, p, d, i)
  }

  ghost predicate HasBit(p: Pixels, bit: bool) { exists i :: 0 <= i < 144 && PixelBit(p, i) == bit }

  lemma SentIsCapture(f: Frame, t: Timing, p: Pixels, d: nat)
    requires IsSentWithin(f, t, p, d)
    ensures IsCaptureOf(f, t, p)
  {
    forall i | 0 <= i < |f|
      ensures f[i].level0 &&
              2 * Distance(High(f[i]), CommandedHigh(t, PixelBit(p, i))) < Distance(t.bit0High, t.bit1High)
    {
      assert IsSentSymbol(f, t, p, d, i);
      DurationsExact(f[i]);
    }
  }

  lemma {:induction false} HighsOccur(f: Frame, t: Timing, p: Pixels, c: SymbolClass, n: nat, i: nat)
    requires i < n <= |f| && StatsClass(f, t, p, i) == c
    ensures Highs(f, t, p, c, n) != []
  {
    if i < n - 1 {
      HighsOccur(f, t, p, c, n - 1, i);
    }
  }

  lemma {:induction false} HighsAbsent(f: Frame, t: Timing, p: Pixels, c: SymbolClass, n: nat)
    requires n <= |f| && forall i :: 0 <= i < n ==> StatsClass(f, t, p, i) != c
    ensures Highs(f, t, p, c, n) == []
  {
    if n > 0 {
      HighsAbsent(f, t, p, c, n - 1);
    }
  }

  lemma SentAverage(f: Frame, t: Timing, p: Pixels, d: nat, bit: bool)
    requires IsSentWithin(f, t, p, d)
    ensures var average := SpecClassStats(f, t, p, ClassOf(bit)).avg;
      if HasBit(p, bit) then CommandedHigh(t, bit) - d <= average <= CommandedHigh(t, bit) + d else average == 0
  {
    var c, sent := ClassOf(bit), CommandedHigh(t, bit);
    SentIsCapture(f, t, p, d);
    CaptureMatches(f, t, p, |f|);
    if HasBit(p, bit) {
      var i :| 0 <= i < 144 && PixelBit(p, i) == bit;
      HighsOccur(f, t, p, c, |f|, i);
      var low := if sent < d then 0 else sent - d;
      forall k | 0 <= k < |f| && StatsClass(f, t, p, k) == c ensures low <= High(f[k]) <= sent + d {
        assert IsSentSymbol(f, t, p, d, k);
        DurationsExact(f[k]);
      }
      HighsOfClass(f, t, p, c, |f|, low, sent + d);
      AverageBounds(Highs(f, t, p, c, |f|), low, sent + d);
    } else {
      HighsAbsent(f, t, p, c, |f|);
    }
  }

  /**
   * A send captured within `d` ns is published as done, with all 144 bits matching and each high time within `d` ns of
   * the one commanded for that very bit; zero stands for a bit that was not sent.
   */
  lemma SentWithin(submit: nat, f: Frame, t: Timing, p: Pixels, d: nat)
    requires IsSentWithin(f, t, p, d)
    ensures var m := MeasureSend(submit, f, t, p);
      && m == Measurement(submit, MeasuredDone, m.bit0High, m.bit1High, 144, true, 0, 0)
      && (if HasBit(p, false) then t.bit0High - d <= m.bit0High <= t.bit0High + d else m.bit0High == 0)
      && (if HasBit(p, true) then t.bit1High - d <= m.bit1High <= t.bit1High + d else m.bit1High == 0)
  {
    SentIsCapture(f, t, p, d);
    CaptureRoundTrip(f, t, p);
    SentAverage(f, t, p, d, false);
    SentAverage(f, t, p, d, true);
    hide SpecClassStats; hide IsCaptureOf; hide IsAverageClose; hide IsSentWithin; hide HasBit;
  }

  /** In particular an exact capture in which both bits occur publishes exactly what was commanded. */
  lemma SentExactly(submit: nat, f: Frame, t: Timing, p: Pixels)
    requires IsSentWithin(f, t, p, 0) && HasBit(p, false) && HasBit(p, true)
    ensures MeasureSend(submit, f, t, p)
         == Measurement(submit, MeasuredDone, t.bit0High, t.bit1High, 144, true, 0, 0)
  {
    hide MeasureSend; hide IsSentWithin; hide HasBit;
    SentWithin(submit, f, t, p, 0);
  }

  /** With equal high times the bits cannot be told apart: nothing matches, and the averages go by the bits sent. */
  lemma SentUntold(submit: nat, f: Frame, t: Timing, p: Pixels)
    requires |f| == 144 && t.bit0High == t.bit1High && forall i :: 0 <= i < |f| ==> f[i].level0
    ensures var m := MeasureSend(submit, f, t, p);
      && m == Measurement(submit, MeasuredDone, m.bit0High, m.bit1High, 0, false, 0, 0)
      && (!HasBit(p, false) ==> m.bit0High == 0) && (!HasBit(p, true) ==> m.bit1High == 0)
      && ((forall i :: 0 <= i < 144 && !PixelBit(p, i) ==> 25 * f[i].duration0 == t.bit0High) ==>
            HasBit(p, false) ==> m.bit0High == t.bit0High)
      && ((forall i :: 0 <= i < 144 && PixelBit(p, i) ==> 25 * f[i].duration0 == t.bit1High) ==>
            HasBit(p, true) ==> m.bit1High == t.bit1High)
  {
    NoMatches(f, t, p, |f|);
    UntoldAverage(f, t, p, false);
    UntoldAverage(f, t, p, true);
    hide SpecClassStats; hide HasBit;
  }

  lemma {:induction false} NoMatches(f: Frame, t: Timing, p: Pixels, n: nat)
    requires n <= |f| && t.bit0High == t.bit1High
    ensures Matches(f, t, p, n) == 0
  {
    if n > 0 {
      NoMatches(f, t, p, n - 1);
    }
  }

  lemma UntoldAverage(f: Frame, t: Timing, p: Pixels, bit: bool)
    requires |f| == 144 && t.bit0High == t.bit1High && forall i :: 0 <= i < |f| ==> f[i].level0
    ensures var average := SpecClassStats(f, t, p, ClassOf(bit)).avg;
      && (!HasBit(p, bit) ==> average == 0)
      && ((forall i :: 0 <= i < 144 && PixelBit(p, i) == bit ==> 25 * f[i].duration0 == t.bit0High) ==>
            HasBit(p, bit) ==> average == t.bit0High)
  {
    var c := ClassOf(bit);
    if !HasBit(p, bit) {
      HighsAbsent(f, t, p, c, |f|);
    } else if forall i :: 0 <= i < 144 && PixelBit(p, i) == bit ==> 25 * f[i].duration0 == t.bit0High {
      var i :| 0 <= i < 144 && PixelBit(p, i) == bit;
      HighsOccur(f, t, p, c, |f|, i);
      forall k | 0 <= k < |f| && StatsClass(f, t, p, k) == c ensures High(f[k]) == t.bit0High {
        DurationsExact(f[k]);
      }
      HighsOfClass(f, t, p, c, |f|, t.bit0High, t.bit0High);
      AverageBounds(Highs(f, t, p, c, |f|), t.bit0High, t.bit0High);
    }
  }

  /** Positions before `n` at which the decoded bit is the bit sent. */
  ghost function MatchSet(f: Frame, t: Timing, p: Pixels, n: nat): set<nat>
    requires n <= |f|
  {
    set i | 0 <= i < n && Decoded(t, f[i]) == (if PixelBit(p, i) then Bit1 else Bit0)
  }

  lemma MatchSetStep(f: Frame, t: Timing, p: Pixels, n: nat)
    requires n < |f|
    ensures var hit := Decoded(t, f[n]) == if PixelBit(p, n) then Bit1 else Bit0;
      |MatchSet(f, t, p, n + 1)| == |MatchSet(f, t, p, n)| + if hit then 1 else 0
  {
    hide Decoded; hide PixelBit;
    var before, after := MatchSet(f, t, p, n), MatchSet(f, t, p, n + 1);
    assert n !in before;
    if n in after {
      assert after == before + {n};
    } else {
      assert after == before;
    }
  }

  lemma {:induction false} MatchesCounted(f: Frame, t: Timing, p: Pixels, n: nat)
    requires n <= |f| && t.bit0High != t.bit1High
    ensures Matches(f, t, p, n) == |MatchSet(f, t, p, n)|
  {
    hide Decoded; hide PixelBit;
    if n == 0 {
      assert MatchSet(f, t, p, 0) == {};
    } else {
      hide MatchSet;
      MatchesCounted(f, t, p, n - 1);
      MatchSetStep(f, t, p, n - 1);
    }
  }

  /** Any send is done exactly if 144 symbols arrived, and then counts the bits that came back as sent. */
  lemma SendDoneIff(submit: nat, f: Frame, t: Timing, p: Pixels)
    ensures var m := MeasureSend(submit, f, t, p);
      if |f| != 144 then m == Measurement(submit, CountError, 0, 0, 0, false, 0, 0)
      else
        && m.submit == submit && m.state == MeasuredDone && m.bit0Period == m.bit1Period == 0
        && m.matchAvailable == (t.bit0High != t.bit1High)
        && m.matchCount == if t.bit0High == t.bit1High then 0 else |MatchSet(f, t, p, |f|)|
  {
    hide SpecClassStats; hide MatchSet;
    if t.bit0High == t.bit1High {
      NoMatches(f, t, p, |f|);
    } else {
      MatchesCounted(f, t, p, |f|);
    }
  }

  /** The example shown for a class is its earliest symbol before the last one, whose low time the reset lengthens. */
  lemma {:induction false} ExampleIsEarliest(f: Frame, t: Timing, p: Pixels, c: SymbolClass, n: nat, i: nat)
    requires n <= |f| && i < n && i < 143 && StatsClass(f, t, p, i) == c
    requires forall k :: 0 <= k < i ==> StatsClass(f, t, p, k) != c
    ensures FirstExample(f, t, p, c, n) == (25 * f[i].duration0, 25 * f[i].duration1)
  {
    if i < n - 1 {
      ExampleIsEarliest(f, t, p, c, n - 1, i);
    } else {
      assert !HasExample(f, t, p, c, n - 1);
      DurationsExact(f[i]);
    }
  }

  // Reads.

  /** Positions before `n` of complete pulses: high, then low, both longer than zero, and not the last symbol. */
  ghost function UsableSet(f: Frame, n: nat): set<nat>
    requires n <= |f|
  {
    set i | 0 <= i < n && i + 1 < |f| && f[i].level0 && !f[i].level1 && f[i].duration0 >= 1 && f[i].duration1 >= 1
  }

  lemma UsableSetStep(f: Frame, n: nat)
    requires n < |f|
    ensures |UsableSet(f, n + 1)| == |UsableSet(f, n)| + if IsReadSymbolUsable(f, n) then 1 else 0
  {
    var before, after := UsableSet(f, n), UsableSet(f, n + 1);
    assert n !in before && (n in after <==> IsReadSymbolUsable(f, n));
    if n in after {
      assert after == before + {n};
    } else {
      assert after == before;
    }
  }

  lemma {:induction false} UsableCounted(f: Frame, n: nat)
    requires n <= |f|
    ensures |UsableHighs(f, n)| == |UsableSet(f, n)|
  {
    if n == 0 {
      assert UsableSet(f, 0) == {};
    } else {
      hide UsableSet; hide IsReadSymbolUsable;
      UsableCounted(f, n - 1);
      UsableSetStep(f, n - 1);
    }
  }

  /** A read is done exactly if at least eight complete pulses arrived. */
  lemma ReadDoneIff(submit: nat, f: Frame)
    ensures MeasureRead(submit, f).submit == submit && !MeasureRead(submit, f).matchAvailable
    ensures |UsableSet(f, |f|)| >= 8 ==> MeasureRead(submit, f).state == ReadDone
    ensures |UsableSet(f, |f|)| < 8 ==> MeasureRead(submit, f) == Measurement(submit, CountError, 0, 0, 0, false, 0, 0)
  {
    UsableCounted(f, |f|);
    hide SpecReadClass; hide UsableSet; hide UsableHighs;
  }

  /** Symbol `i` is a complete pulse of the given high time and period. */
  ghost predicate IsPulse(f: Frame, i: nat, high: nat, period: nat)
    requires i < |f|
  {
    && f[i].level0 && !f[i].level1 && f[i].duration0 >= 1 && f[i].duration1 >= 1
    && 25 * f[i].duration0 == high && 25 * (f[i].duration0 + f[i].duration1) == period
  }

  /** Nine symbols or more, all but the last in one of two pulse shapes at least 100 ns apart, both of which occur. */
  ghost predicate IsTwoShapes(f: Frame, bits: seq<bool>, high0: nat, period0: nat, high1: nat, period1: nat,
      zero: nat, one: nat) {
    && |bits| == |f| >= 9 && high1 >= high0 + 100
    && (forall i :: 0 <= i < |f| - 1 ==>
          if bits[i] then IsPulse(f, i, high1, period1) else IsPulse(f, i, high0, period0))
    && zero < |f| - 1 && !bits[zero] && one < |f| - 1 && bits[one]
  }

  /** A source with two exact pulse shapes is published as it is, the shorter one as bit 0. */
  lemma ReadExactly(submit: nat, f: Frame, bits: seq<bool>, high0: nat, period0: nat, high1: nat, period1: nat,
      zero: nat, one: nat)
    requires IsTwoShapes(f, bits, high0, period0, high1, period1, zero, one)
    ensures MeasureRead(submit, f) == Measurement(submit, ReadDone, high0, high1, 0, false, period0, period1)
  {
    hide SpecRead;
    forall i | 0 <= i < |f| - 1
      ensures IsReadSymbolUsable(f, i) && IsIdealSymbol(f, i, bits[i], high0, period0, high1, period1)
    {
      assert if bits[i] then IsPulse(f, i, high1, period1) else IsPulse(f, i, high0, period0);
      DurationsExact(f[i]);
    }
    IdealReadRecovered(f, bits, high0, period0, high1, period1, zero, one);
  }

  lemma {:induction false} ClassAbsent(f: Frame, s: Spread, bit: bool, periods: bool, n: nat)
    requires n <= |f| && forall i :: 0 <= i < n ==> !IsInClass(f, s, bit, i)
    ensures ClassValues(f, s, bit, periods, n) == []
  {
    if n > 0 {
      ClassAbsent(f, s, bit, periods, n - 1);
    }
  }

  /** High times less than 100 ns apart are one class: bit 0 exactly up to a middle of 625 ns. */
  lemma UnsplitIsOneClass(f: Frame)
    requires UsableHighs(f, |f|) != [] && SpreadOf(f).max - SpreadOf(f).min < 100
    ensures var s, r := SpreadOf(f), SpecRead(f).stats;
      if s.min + s.max <= 1250 then r.bit1 == ReadClass(0, 0, 0) && r.bit0.count == r.usableCount
      else r.bit0 == ReadClass(0, 0, 0) && r.bit1.count == r.usableCount
  {
    var s := SpreadOf(f);
    var absent := s.min + s.max <= 1250;
    ReadParts(f);
    ReadCountsAdd(f);
    ClassAbsent(f, s, absent, false, |f|);
    ClassAbsent(f, s, absent, true, |f|);
    hide SpecRead; hide UsableHighs; hide SpreadOf; hide IsInClass;
  }

  /** A source with one exact pulse shape has no second bit: it is bit 0 up to a high time of 625 ns, else bit 1. */
  lemma ReadOneShape(submit: nat, f: Frame, high: nat, period: nat)
    requires |f| >= 9 && forall i :: 0 <= i < |f| - 1 ==> IsPulse(f, i, high, period)
    ensures MeasureRead(submit, f) == if high <= 625 then Measurement(submit, ReadDone, high, 0, 0, false, period, 0)
                                      else Measurement(submit, ReadDone, 0, high, 0, false, 0, period)
  {
    forall i | 0 <= i < |f| - 1 ensures IsReadSymbolUsable(f, i) && High(f[i]) == high && Period(f[i]) == period {
      assert IsPulse(f, i, high, period);
      DurationsExact(f[i]);
    }
    assert !IsReadSymbolUsable(f, |f| - 1);
    UsableAll(f, |f| - 1);
    var shortest, longest := SpreadAttained(f);
    assert SpreadOf(f) == Spread(high, high);
    UnsplitIsOneClass(f);
    ReadParts(f);
    IdealClass(f, seq(|f|, _ => high > 625), Spread(high, high), high > 625, high, period, 0);
    hide SpecRead; hide SpreadOf; hide UsableHighs; hide SpecReadClass;
  }

  lemma {:induction false} UsableAll(f: Frame, n: nat)
    requires n < |f| && forall i :: 0 <= i < n ==> IsReadSymbolUsable(f, i)
    ensures |UsableHighs(f, n)| == n && |UsableHighs(f, |f|)| >= n
  {
    if n > 0 {
      UsableAll(f, n - 1);
    }
    UsableGrow(f, n, |f|);
  }

  lemma {:induction false} UsableGrow(f: Frame, m: nat, n: nat)
    requires m <= n <= |f|
    ensures |UsableHighs(f, m)| <= |UsableHighs(f, n)|
  {
    if m < n {
      UsableGrow(f, m, n - 1);
    }
  }
}
