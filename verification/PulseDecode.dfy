/** Measurement of captured frames: the decoding and read analysis of main/rmt_pulse_monitor/rmt_pulse_monitor.c. */
module PulseDecode {
  import opened Ws2812

  const READ_MIN_BITS := 8
  const READ_SPLIT_MIN_NS := 100
  const READ_SINGLE_SPLIT_NS := 625

  datatype SymbolClass = Bit0 | Bit1 | Invalid

  function Distance(a: nat, b: nat): nat { if a > b then a - b else b - a }

  function High(s: Symbol): nat { TicksToNs(s.duration0) }

  function Low(s: Symbol): nat { TicksToNs(s.duration1) }

  function Period(s: Symbol): nat { TicksToNs(s.duration0 + s.duration1) }

  lemma DurationsExact(s: Symbol)
    ensures High(s) == s.duration0 * 25 && Low(s) == s.duration1 * 25 && Period(s) == High(s) + Low(s) < 1638400
  {
  }

  /** Nearest commanded high time wins; an equidistant pulse is bit 0. */
  function DecodeWs2812Symbol(s: Symbol, bit0High: nat, bit1High: nat): SymbolClass {
    if !s.level0 then Invalid
    else if Distance(High(s), bit0High) <= Distance(High(s), bit1High) then Bit0 else Bit1
  }

  // Send captures.

  function Decoded(t: Timing, s: Symbol): SymbolClass { DecodeWs2812Symbol(s, t.bit0High, t.bit1High) }

  predicate IsMatchAvailable(t: Timing) { t.bit0High != t.bit1High }

  /** The class whose statistics symbol `i` joins: the decoded bit, or the expected one when timing cannot tell. */
  function StatsClass(f: Frame, t: Timing, p: Pixels, i: nat): SymbolClass
    requires i < |f|
  {
    if Decoded(t, f[i]).Invalid? || IsMatchAvailable(t) then Decoded(t, f[i])
    else if PixelBit(p, i) then Bit1 else Bit0
  }

  /** High times of the symbols before `n` that belong to `c`, in order. */
  function Highs(f: Frame, t: Timing, p: Pixels, c: SymbolClass, n: nat): seq<nat>
    requires n <= |f|
  {
    if n == 0 then []
    else Highs(f, t, p, c, n - 1) + if StatsClass(f, t, p, n - 1) == c then [High(f[n - 1])] else []
  }

  predicate IsMatch(f: Frame, t: Timing, p: Pixels, i: nat)
    requires i < |f|
  {
    IsMatchAvailable(t) && Decoded(t, f[i]) == if PixelBit(p, i) then Bit1 else Bit0
  }

  function Matches(f: Frame, t: Timing, p: Pixels, n: nat): nat
    requires n <= |f|
  {
    if n == 0 then 0 else Matches(f, t, p, n - 1) + if IsMatch(f, t, p, n - 1) then 1 else 0
  }

  function Minimum(xs: seq<nat>): nat {
    if xs == [] then UINT32_LIMIT - 1
    else if xs[|xs| - 1] < Minimum(xs[..|xs| - 1]) then xs[|xs| - 1] else Minimum(xs[..|xs| - 1])
  }

  function Maximum(xs: seq<nat>): nat {
    if xs == [] then 0
    else if xs[|xs| - 1] > Maximum(xs[..|xs| - 1]) then xs[|xs| - 1] else Maximum(xs[..|xs| - 1])
  }

  /** The first symbol of class `c` before `n` whose low time is measured (not the final symbol). */
  function FirstExample(f: Frame, t: Timing, p: Pixels, c: SymbolClass, n: nat): (nat, nat)
    requires n <= |f|
  {
    if n == 0 then (0, 0)
    else if HasExample(f, t, p, c, n - 1) then FirstExample(f, t, p, c, n - 1)
    else if StatsClass(f, t, p, n - 1) == c && n < DATA_SYMBOLS then (High(f[n - 1]), Low(f[n - 1]))
    else (0, 0)
  }

  predicate HasExample(f: Frame, t: Timing, p: Pixels, c: SymbolClass, n: nat)
    requires n <= |f|
  {
    exists i :: 0 <= i < n && i + 1 < DATA_SYMBOLS && StatsClass(f, t, p, i) == c
  }

  datatype ClassStats = ClassStats(first: (nat, nat), min: nat, max: nat, avg: nat)

  datatype PulseStats = PulseStats(bit0: ClassStats, bit1: ClassStats, matchCount: nat, matchAvailable: bool)

  function SpecClassStats(f: Frame, t: Timing, p: Pixels, c: SymbolClass): ClassStats {
    var xs := Highs(f, t, p, c, |f|);
    var min := if xs == [] then 0 else Minimum(xs);
    ClassStats(FirstExample(f, t, p, c, |f|), min, Maximum(xs), RoundedAverage(Sum(xs), |xs|))
  }

  function SpecStats(f: Frame, t: Timing, p: Pixels): PulseStats {
    PulseStats(SpecClassStats(f, t, p, Bit0), SpecClassStats(f, t, p, Bit1), Matches(f, t, p, |f|), IsMatchAvailable(t))
  }

  // Running statistics of one class, as the loop keeps them.
  datatype Running = Running(first: (nat, nat), hasExample: bool, sum: nat, count: nat, min: nat, max: nat) {
    function Add(high: nat, low: nat, hasLowTime: bool): Running {
      Running(if !hasExample && hasLowTime then (high, low) else first, hasExample || hasLowTime, sum + high, count + 1,
              if high < min then high else min, if high > max then high else max)
    }

    ghost predicate Tracks(f: Frame, t: Timing, p: Pixels, c: SymbolClass, n: nat)
      requires n <= |f|
    {
      var xs := Highs(f, t, p, c, n);
      && first == FirstExample(f, t, p, c, n) && hasExample == HasExample(f, t, p, c, n)
      && sum == Sum(xs) && count == |xs| && min == Minimum(xs) && max == Maximum(xs)
    }

    function Finish(): ClassStats {
      ClassStats(first, if count > 0 then min else 0, max, RoundedAverage(sum, count))
    }
  }

  lemma AddTracks(r: Running, f: Frame, t: Timing, p: Pixels, c: SymbolClass, n: nat)
    requires n < |f| && r.Tracks(f, t, p, c, n)
    ensures if StatsClass(f, t, p, n) == c
            then r.Add(High(f[n]), Low(f[n]), n + 1 < DATA_SYMBOLS).Tracks(f, t, p, c, n + 1)
            else r.Tracks(f, t, p, c, n + 1)
  {
    var xs := Highs(f, t, p, c, n);
    assert (xs + [High(f[n])])[..|xs|] == xs && xs + [] == xs;
  }

  datatype Aggregate = WrongCount | Aggregated(stats: PulseStats)

  method AggregateWs2812Pulses(f: Frame, t: Timing, p: Pixels) returns (r: Aggregate)
    ensures r == if |f| != DATA_SYMBOLS then WrongCount else Aggregated(SpecStats(f, t, p))
  {
    if |f| != DATA_SYMBOLS {
      return WrongCount;
    }
    var matchAvailable := t.bit0High != t.bit1High;
    var matchCount := 0;
    var bit0 := Running((0, 0), false, 0, 0, UINT32_LIMIT - 1, 0);
    var bit1 := bit0;
    for index := 0 to |f|
      invariant bit0.Tracks(f, t, p, Bit0, index) && bit1.Tracks(f, t, p, Bit1, index)
      invariant matchCount == Matches(f, t, p, index)
    {
      AddTracks(bit0, f, t, p, Bit0, index);
      AddTracks(bit1, f, t, p, Bit1, index);
      var symbolClass := DecodeWs2812Symbol(f[index], t.bit0High, t.bit1High);
      if symbolClass == Invalid {
        continue;
      }
      var expectedBit := PixelBit(p, index);
      var high, low := TicksToNs(f[index].duration0), TicksToNs(f[index].duration1);
      var hasLowTime := index + 1 < DATA_SYMBOLS;
      var decodedBit := symbolClass == Bit1;
      if matchAvailable && decodedBit == expectedBit {
        matchCount := matchCount + 1;
      }
      var statsBit := if matchAvailable then decodedBit else expectedBit;
      if !statsBit {
        bit0 := bit0.Add(high, low, hasLowTime);
      } else {
        bit1 := bit1.Add(high, low, hasLowTime);
      }
    }
    return Aggregated(PulseStats(bit0.Finish(), bit1.Finish(), matchCount, matchAvailable));
  }

  // What the measurement of a sent frame means.

  /**
   * `f` is a capture of the frame sent with `t` and `p`, each high time off by less than half the gap of the two bits.
   */
  ghost predicate IsCaptureOf(f: Frame, t: Timing, p: Pixels) {
    && |f| == DATA_SYMBOLS
    && forall i :: 0 <= i < |f| ==>
        f[i].level0 && 2 * Distance(High(f[i]), CommandedHigh(t, PixelBit(p, i))) < Distance(t.bit0High, t.bit1High)
  }

  lemma NearerBit(high: nat, bit0High: nat, bit1High: nat, bit: bool)
    requires 2 * Distance(high, if bit then bit1High else bit0High) < Distance(bit0High, bit1High)
    ensures Distance(high, bit0High) <= Distance(high, bit1High) <==> !bit
  {
  }

  lemma {:induction false} CaptureMatches(f: Frame, t: Timing, p: Pixels, n: nat)
    requires IsCaptureOf(f, t, p) && n <= |f|
    ensures Matches(f, t, p, n) == n
    ensures forall i :: 0 <= i < n ==> StatsClass(f, t, p, i) == if PixelBit(p, i) then Bit1 else Bit0
  {
    if n > 0 {
      CaptureMatches(f, t, p, n - 1);
      NearerBit(High(f[n - 1]), t.bit0High, t.bit1High, PixelBit(p, n - 1));
    }
  }

  lemma {:induction false} HighsOfClass(f: Frame, t: Timing, p: Pixels, c: SymbolClass, n: nat, low: nat, high: nat)
    requires n <= |f|
    requires forall i :: 0 <= i < n && StatsClass(f, t, p, i) == c ==> low <= High(f[i]) <= high
    ensures AllWithin(Highs(f, t, p, c, n), low, high)
  {
    if n > 0 {
      HighsOfClass(f, t, p, c, n - 1, low, high);
    }
  }

  lemma {:induction false} ExtremesBound(xs: seq<nat>)
    requires xs != [] && forall k :: 0 <= k < |xs| ==> xs[k] < UINT32_LIMIT
    ensures AllWithin(xs, Minimum(xs), Maximum(xs)) && Minimum(xs) in xs && Maximum(xs) in xs
  {
    var init, last := xs[..|xs| - 1], xs[|xs| - 1];
    if init != [] {
      ExtremesBound(init);
      assert Minimum(xs) == last || Minimum(xs) == Minimum(init);
      assert Maximum(xs) == last || Maximum(xs) == Maximum(init);
    }
  }

  /** Every class average lies between its extremes and within one half of the true mean of its high times. */
  lemma ClassAverage(f: Frame, t: Timing, p: Pixels, c: SymbolClass)
    requires Highs(f, t, p, c, |f|) != []
    ensures var s, xs := SpecClassStats(f, t, p, c), Highs(f, t, p, c, |f|);
      && s.min <= s.avg <= s.max && s.min in xs && s.max in xs
      && -(|xs| as int) <= 2 * (s.avg * |xs| - Sum(xs)) <= |xs|
  {
    var xs := Highs(f, t, p, c, |f|);
    HighsOfClass(f, t, p, c, |f|, 0, UINT32_LIMIT - 1);
    ExtremesBound(xs);
    AverageBounds(xs, Minimum(xs), Maximum(xs));
  }

  function ClassOf(bit: bool): SymbolClass { if bit then Bit1 else Bit0 }

  /** Round trip: a capture within tolerance decodes to every sent bit, and the averages stay within the tolerance. */
  lemma CaptureRoundTrip(f: Frame, t: Timing, p: Pixels)
    requires IsCaptureOf(f, t, p)
    ensures SpecStats(f, t, p).matchCount == DATA_SYMBOLS && SpecStats(f, t, p).matchAvailable
    ensures forall i :: 0 <= i < |f| ==> Decoded(t, f[i]) == ClassOf(PixelBit(p, i))
    ensures IsAverageClose(f, t, p, false) && IsAverageClose(f, t, p, true)
  {
    CaptureMatches(f, t, p, |f|);
    CaptureAverage(f, t, p, false);
    CaptureAverage(f, t, p, true);
  }

  /** The average of a class that occurs is off by less than half the gap of the two bits. */
  ghost predicate IsAverageClose(f: Frame, t: Timing, p: Pixels, bit: bool) {
    var c := ClassOf(bit);
    Highs(f, t, p, c, |f|) != [] ==>
      2 * Distance(SpecClassStats(f, t, p, c).avg, CommandedHigh(t, bit)) < Distance(t.bit0High, t.bit1High)
  }

  lemma CaptureAverage(f: Frame, t: Timing, p: Pixels, bit: bool)
    requires IsCaptureOf(f, t, p)
    ensures IsAverageClose(f, t, p, bit)
  {
    var c, sent, gap := ClassOf(bit), CommandedHigh(t, bit), Distance(t.bit0High, t.bit1High);
    var xs := Highs(f, t, p, c, |f|);
    if xs != [] {
      var most := if gap == 0 then 0 else (gap - 1) / 2;
      var low := if sent < most then 0 else sent - most;
      CaptureMatches(f, t, p, |f|);
      HighsOfClass(f, t, p, c, |f|, low, sent + most);
      AverageBounds(xs, low, sent + most);
    }
  }

  /** With no deviation the average of a class that occurs is exactly the commanded high time. */
  lemma ExactCapture(f: Frame, t: Timing, p: Pixels, bit: bool)
    requires IsCaptureOf(f, t, p)
    requires forall i :: 0 <= i < |f| ==> High(f[i]) == CommandedHigh(t, PixelBit(p, i))
    ensures var c := if bit then Bit1 else Bit0;
      SpecClassStats(f, t, p, c).avg == if Highs(f, t, p, c, |f|) == [] then 0 else CommandedHigh(t, bit)
  {
    var c := if bit then Bit1 else Bit0;
    CaptureMatches(f, t, p, |f|);
    HighsOfClass(f, t, p, c, |f|, CommandedHigh(t, bit), CommandedHigh(t, bit));
    if Highs(f, t, p, c, |f|) != [] {
      AverageBounds(Highs(f, t, p, c, |f|), CommandedHigh(t, bit), CommandedHigh(t, bit));
    }
  }

  /** The frame the controller encodes for an accepted timing set is itself an exact capture of its data symbols. */
  lemma EncodedFrameDecodes(t: Timing, p: Pixels)
    requires ValidateWs2812Timing(t) == TimingOk && |p| == PIXEL_BYTES && t.bit0High != t.bit1High
    ensures IsCaptureOf(EncodeFrame(t, p)[..DATA_SYMBOLS], t, p)
    ensures SpecStats(EncodeFrame(t, p)[..DATA_SYMBOLS], t, p).matchCount == DATA_SYMBOLS
  {
    AcceptedTimingExact(t);
    var f := EncodeFrame(t, p)[..DATA_SYMBOLS];
    forall i | 0 <= i < DATA_SYMBOLS ensures f[i].level0 && High(f[i]) == CommandedHigh(t, PixelBit(p, i)) {
      assert f[i] == BitSymbol(CommandedHigh(t, PixelBit(p, i)), CommandedPeriod(t, PixelBit(p, i)));
    }
    CaptureRoundTrip(f, t, p);
  }

  // Read captures of an external source.

  predicate IsReadSymbolUsable(f: Frame, i: nat)
    requires i < |f|
  {
    i + 1 < |f| && f[i].level0 && !f[i].level1 && f[i].duration0 > 0 && f[i].duration1 > 0
  }

  function UsableHighs(f: Frame, n: nat): seq<nat>
    requires n <= |f|
  {
    if n == 0 then []
    else UsableHighs(f, n - 1) + if IsReadSymbolUsable(f, n - 1) then [High(f[n - 1])] else []
  }

  /** Shortest and longest usable high time; they decide the class of every symbol. */
  datatype Spread = Spread(min: nat, max: nat) {
    predicate IsSplit() { max - min >= READ_SPLIT_MIN_NS }

    predicate IsBit0(high: nat) {
      if IsSplit() then 2 * high <= min + max else min + max <= 2 * READ_SINGLE_SPLIT_NS
    }
  }

  function SpreadOf(f: Frame): Spread {
    Spread(Minimum(UsableHighs(f, |f|)), Maximum(UsableHighs(f, |f|)))
  }

  predicate IsInClass(f: Frame, s: Spread, bit: bool, i: nat)
    requires i < |f|
  {
    IsReadSymbolUsable(f, i) && s.IsBit0(High(f[i])) != bit
  }

  /** A measured quantity of the symbols of one class before `n`: their high times, or their periods. */
  function ClassValues(f: Frame, s: Spread, bit: bool, periods: bool, n: nat): seq<nat>
    requires n <= |f|
  {
    if n == 0 then []
    else ClassValues(f, s, bit, periods, n - 1)
         + if IsInClass(f, s, bit, n - 1) then [if periods then Period(f[n - 1]) else High(f[n - 1])] else []
  }

  datatype ReadClass = ReadClass(count: nat, highAvg: nat, periodAvg: nat)

  datatype ReadStats = ReadStats(usableCount: nat, bit0: ReadClass, bit1: ReadClass)

  datatype ReadAnalysis = ReadAnalysis(isValid: bool, stats: ReadStats)

  function SpecReadClass(f: Frame, s: Spread, bit: bool): ReadClass {
    var highs, periods := ClassValues(f, s, bit, false, |f|), ClassValues(f, s, bit, true, |f|);
    ReadClass(|highs|, RoundedAverage(Sum(highs), |highs|), RoundedAverage(Sum(periods), |highs|))
  }

  function SpecRead(f: Frame): ReadAnalysis {
    var usable := |UsableHighs(f, |f|)|;
    if usable == 0 then ReadAnalysis(false, ReadStats(0, ReadClass(0, 0, 0), ReadClass(0, 0, 0)))
    else ReadAnalysis(usable >= READ_MIN_BITS,
                      ReadStats(usable, SpecReadClass(f, SpreadOf(f), false), SpecReadClass(f, SpreadOf(f), true)))
  }

  // 32-bit unsigned addition and the accumulator pair of one class.

  function Add32(a: nat, b: nat): nat { (a + b) % UINT32_LIMIT }

  lemma Add32Homomorphic(a: nat, b: nat)
    ensures Add32(a % UINT32_LIMIT, b) == (a + b) % UINT32_LIMIT
  {
  }

  datatype ReadSums = ReadSums(highSum: nat, periodSum: nat, count: nat) {
    ghost predicate Tracks(f: Frame, s: Spread, bit: bool, n: nat)
      requires n <= |f|
    {
      && highSum == Sum(ClassValues(f, s, bit, false, n)) % UINT32_LIMIT
      && periodSum == Sum(ClassValues(f, s, bit, true, n)) % UINT32_LIMIT
      && count == |ClassValues(f, s, bit, false, n)| == |ClassValues(f, s, bit, true, n)|
    }

    function Add(high: nat, period: nat): ReadSums {
      ReadSums(Add32(highSum, high), Add32(periodSum, period), count + 1)
    }

    function Finish(): ReadClass {
      ReadClass(count, GetRoundedAverage(highSum, count), GetRoundedAverage(periodSum, count))
    }
  }

  function GetRoundedAverage(sum: nat, count: nat): nat {
    if count > 0 then Add32(sum, count / 2) / count else 0
  }

  lemma ReadAddTracks(r: ReadSums, f: Frame, s: Spread, bit: bool, n: nat)
    requires n < |f| && r.Tracks(f, s, bit, n)
    ensures (if IsInClass(f, s, bit, n) then r.Add(High(f[n]), Period(f[n])) else r).Tracks(f, s, bit, n + 1)
  {
    var highs, periods := ClassValues(f, s, bit, false, n), ClassValues(f, s, bit, true, n);
    assert (highs + [High(f[n])])[..|highs|] == highs && highs + [] == highs;
    assert (periods + [Period(f[n])])[..|periods|] == periods && periods + [] == periods;
    Add32Homomorphic(Sum(highs), High(f[n]));
    Add32Homomorphic(Sum(periods), Period(f[n]));
  }

  lemma {:induction false} ClassValuesBounded(f: Frame, s: Spread, bit: bool, periods: bool, n: nat)
    requires n <= |f|
    ensures |ClassValues(f, s, bit, periods, n)| <= n
    ensures AllWithin(ClassValues(f, s, bit, periods, n), 0, 1638400)
  {
    if n > 0 {
      ClassValuesBounded(f, s, bit, periods, n - 1);
      DurationsExact(f[n - 1]);
    }
  }

  // 144 symbols of 15-bit durations at 25 ns cannot overflow a 32-bit sum.
  lemma SumFits(f: Frame, s: Spread, bit: bool, periods: bool)
    requires |f| <= DATA_SYMBOLS
    ensures Sum(ClassValues(f, s, bit, periods, |f|)) + |f| < UINT32_LIMIT
    ensures |ClassValues(f, s, bit, periods, |f|)| <= |f|
  {
    var xs := ClassValues(f, s, bit, periods, |f|);
    ClassValuesBounded(f, s, bit, periods, |f|);
    SumBounds(xs, 0, 1638400);
  }

  lemma FinishExact(r: ReadSums, f: Frame, s: Spread, bit: bool)
    requires |f| <= DATA_SYMBOLS && r.Tracks(f, s, bit, |f|)
    ensures r.Finish() == SpecReadClass(f, s, bit)
  {
    SumFits(f, s, bit, false);
    SumFits(f, s, bit, true);
    ExactAverage(Sum(ClassValues(f, s, bit, false, |f|)), r.count);
    ExactAverage(Sum(ClassValues(f, s, bit, true, |f|)), r.count);
  }

  lemma ExactAverage(sum: nat, count: nat)
    requires sum + count < UINT32_LIMIT
    ensures GetRoundedAverage(sum % UINT32_LIMIT, count) == RoundedAverage(sum, count)
  {
    assert sum % UINT32_LIMIT == sum;
    assert Add32(sum, count / 2) == sum + count / 2;
  }

  /** First loop of the analysis: count the usable symbols and find the extremes of their high times. */
  method MeasureSpread(f: Frame) returns (min: nat, max: nat, usableCount: nat)
    ensures min == Minimum(UsableHighs(f, |f|)) && max == Maximum(UsableHighs(f, |f|))
    ensures usableCount == |UsableHighs(f, |f|)|
  {
    min, max, usableCount := UINT32_LIMIT - 1, 0, 0;
    for index := 0 to |f|
      invariant min == Minimum(UsableHighs(f, index)) && max == Maximum(UsableHighs(f, index))
      invariant usableCount == |UsableHighs(f, index)|
    {
      ghost var highs := UsableHighs(f, index);
      assert (highs + [High(f[index])])[..|highs|] == highs && highs + [] == highs;
      if !IsReadSymbolUsable(f, index) {
        continue;
      }
      var high := TicksToNs(f[index].duration0);
      if high < min {
        min := high;
      }
      if high > max {
        max := high;
      }
      usableCount := usableCount + 1;
    }
  }

  /** Second loop: sum high times and periods per class, in 32-bit arithmetic. */
  method SumClasses(f: Frame, min: nat, max: nat) returns (bit0: ReadSums, bit1: ReadSums)
    ensures bit0.Tracks(f, Spread(min, max), false, |f|) && bit1.Tracks(f, Spread(min, max), true, |f|)
  {
    ghost var s := Spread(min, max);
    var isSplit := max - min >= READ_SPLIT_MIN_NS;
    var isSingleBit0 := min + max <= 2 * READ_SINGLE_SPLIT_NS;
    bit0, bit1 := ReadSums(0, 0, 0), ReadSums(0, 0, 0);
    for index := 0 to |f|
      invariant bit0.Tracks(f, s, false, index) && bit1.Tracks(f, s, true, index)
    {
      ReadAddTracks(bit0, f, s, false, index);
      ReadAddTracks(bit1, f, s, true, index);
      if !IsReadSymbolUsable(f, index) {
        continue;
      }
      var high := TicksToNs(f[index].duration0);
      var period := TicksToNs(f[index].duration0 + f[index].duration1);
      var isBit0 := if isSplit then 2 * high <= min + max else isSingleBit0;
      if isBit0 {
        bit0 := bit0.Add(high, period);
      } else {
        bit1 := bit1.Add(high, period);
      }
    }
  }

  /** The analysis in 32-bit arithmetic; up to 144 symbols the result is the exact one. */
  method AnalyzeWs2812Read(f: Frame) returns (r: ReadAnalysis)
    ensures |f| <= DATA_SYMBOLS ==> r == SpecRead(f)
  {
    var min, max, usableCount := MeasureSpread(f);
    if usableCount == 0 {
      return ReadAnalysis(false, ReadStats(0, ReadClass(0, 0, 0), ReadClass(0, 0, 0)));
    }
    var bit0, bit1 := SumClasses(f, min, max);
    if |f| <= DATA_SYMBOLS {
      FinishExact(bit0, f, SpreadOf(f), false);
      FinishExact(bit1, f, SpreadOf(f), true);
    }
    return ReadAnalysis(usableCount >= READ_MIN_BITS, ReadStats(usableCount, bit0.Finish(), bit1.Finish()));
  }

  // What a read measurement means.

  lemma {:induction false} ClassCountsAdd(f: Frame, s: Spread, n: nat)
    requires n <= |f|
    ensures |ClassValues(f, s, false, false, n)| + |ClassValues(f, s, true, false, n)| == |UsableHighs(f, n)|
  {
    if n > 0 {
      ClassCountsAdd(f, s, n - 1);
    }
  }

  lemma {:induction false} ClassValuesWithin(f: Frame, s: Spread, bit: bool, periods: bool, n: nat, low: nat, high: nat)
    requires n <= |f|
    requires forall i :: 0 <= i < n && IsInClass(f, s, bit, i) ==>
        low <= (if periods then Period(f[i]) else High(f[i])) <= high
    ensures AllWithin(ClassValues(f, s, bit, periods, n), low, high)
  {
    if n > 0 {
      ClassValuesWithin(f, s, bit, periods, n - 1, low, high);
    }
  }

  lemma {:induction false} ClassOccurs(f: Frame, s: Spread, bit: bool, n: nat, i: nat)
    requires i < n <= |f| && IsInClass(f, s, bit, i)
    ensures |ClassValues(f, s, bit, false, n)| > 0
  {
    if i < n - 1 {
      ClassOccurs(f, s, bit, n - 1, i);
    }
  }

  lemma {:induction false} UsableFrom(f: Frame, n: nat, k: nat) returns (i: nat)
    requires n <= |f| && k < |UsableHighs(f, n)|
    ensures i < n && IsReadSymbolUsable(f, i) && High(f[i]) == UsableHighs(f, n)[k]
  {
    if k < |UsableHighs(f, n - 1)| {
      i := UsableFrom(f, n - 1, k);
    } else {
      i := n - 1;
    }
  }

  lemma {:induction false} UsableOccurs(f: Frame, n: nat, i: nat)
    requires i < n <= |f| && IsReadSymbolUsable(f, i)
    ensures High(f[i]) in UsableHighs(f, n)
  {
    if i < n - 1 {
      UsableOccurs(f, n - 1, i);
    }
  }

  // The extremes are attained by usable symbols and bound all of them.
  lemma SpreadAttained(f: Frame) returns (shortest: nat, longest: nat)
    requires UsableHighs(f, |f|) != []
    ensures shortest < |f| && IsReadSymbolUsable(f, shortest) && High(f[shortest]) == SpreadOf(f).min
    ensures longest < |f| && IsReadSymbolUsable(f, longest) && High(f[longest]) == SpreadOf(f).max
    ensures forall i :: 0 <= i < |f| && IsReadSymbolUsable(f, i) ==> SpreadOf(f).min <= High(f[i]) <= SpreadOf(f).max
  {
    var xs := UsableHighs(f, |f|);
    forall k | 0 <= k < |xs| ensures xs[k] < UINT32_LIMIT {
      var i := UsableFrom(f, |f|, k);
    }
    ExtremesBound(xs);
    var a :| 0 <= a < |xs| && xs[a] == Minimum(xs);
    var b :| 0 <= b < |xs| && xs[b] == Maximum(xs);
    shortest := UsableFrom(f, |f|, a);
    longest := UsableFrom(f, |f|, b);
    forall i | 0 <= i < |f| && IsReadSymbolUsable(f, i) ensures Minimum(xs) <= High(f[i]) <= Maximum(xs) {
      UsableOccurs(f, |f|, i);
    }
  }

  /** The two classes partition the usable symbols. */
  lemma ReadCountsAdd(f: Frame)
    ensures var s := SpecRead(f).stats; s.bit0.count + s.bit1.count == s.usableCount
  {
    ClassCountsAdd(f, SpreadOf(f), |f|);
  }

  /** A split leaves both classes non-empty, separated by the midpoint, with the averages in order. */
  lemma SplitSeparates(f: Frame)
    requires UsableHighs(f, |f|) != [] && SpreadOf(f).IsSplit()
    ensures var s := SpecRead(f).stats; s.bit0.count > 0 && s.bit1.count > 0 && s.bit0.highAvg < s.bit1.highAvg
    ensures var s := SpreadOf(f);
      forall i, j :: 0 <= i < |f| && 0 <= j < |f| && IsInClass(f, s, false, i) && IsInClass(f, s, true, j) ==>
                       2 * High(f[i]) <= s.min + s.max < 2 * High(f[j])
  {
    var s := SpreadOf(f);
    var shortest, longest := SpreadAttained(f);
    ClassOccurs(f, s, false, |f|, shortest);
    ClassOccurs(f, s, true, |f|, longest);
    var middle := (s.min + s.max) / 2;
    ClassValuesWithin(f, s, false, false, |f|, 0, middle);
    ClassValuesWithin(f, s, true, false, |f|, middle + 1, s.max);
    AverageBounds(ClassValues(f, s, false, false, |f|), 0, middle);
    AverageBounds(ClassValues(f, s, true, false, |f|), middle + 1, s.max);
  }

  /** Symbol `i` carries `bit` with exactly the given times. */
  predicate IsIdealSymbol(f: Frame, i: nat, bit: bool, high0: nat, period0: nat, high1: nat, period1: nat)
    requires i < |f|
  {
    High(f[i]) == (if bit then high1 else high0) && Period(f[i]) == if bit then period1 else period0
  }

  lemma {:induction false} SameCount(f: Frame, s: Spread, bit: bool, n: nat)
    requires n <= |f|
    ensures |ClassValues(f, s, bit, false, n)| == |ClassValues(f, s, bit, true, n)|
  {
    if n > 0 {
      SameCount(f, s, bit, n - 1);
    }
  }

  function CountBits(bits: seq<bool>, bit: bool): nat {
    if bits == [] then 0 else CountBits(bits[..|bits| - 1], bit) + if bits[|bits| - 1] == bit then 1 else 0
  }

  lemma {:induction false} IdealCounts(f: Frame, bits: seq<bool>, high0: nat, high1: nat, bit: bool, n: nat)
    requires |bits| == |f| && high1 >= high0 + READ_SPLIT_MIN_NS && n < |f|
    requires forall i :: 0 <= i < n ==> IsReadSymbolUsable(f, i) && High(f[i]) == if bits[i] then high1 else high0
    ensures |UsableHighs(f, n)| == n
    ensures |ClassValues(f, Spread(high0, high1), bit, false, n)| == CountBits(bits[..n], bit)
  {
    if n > 0 {
      IdealCounts(f, bits, high0, high1, bit, n - 1);
      assert bits[..n][..n - 1] == bits[..n - 1];
    }
  }

  /** An ideal frame with both bits present before the last symbol, which is never usable, is recovered exactly. */
  lemma IdealReadRecovered(f: Frame, bits: seq<bool>, high0: nat, period0: nat, high1: nat, period1: nat, zero: nat,
      one: nat)
    requires |bits| == |f| && high1 >= high0 + READ_SPLIT_MIN_NS
    requires forall i :: 0 <= i < |f| - 1 ==>
        IsReadSymbolUsable(f, i) && IsIdealSymbol(f, i, bits[i], high0, period0, high1, period1)
    requires zero < |f| - 1 && !bits[zero] && one < |f| - 1 && bits[one]
    ensures var s := SpecRead(f).stats;
      && SpecRead(f).isValid == (|f| - 1 >= READ_MIN_BITS) && s.usableCount == |f| - 1
      && s.bit0.count == CountBits(bits[..|f| - 1], false) && s.bit1.count == CountBits(bits[..|f| - 1], true)
      && s.bit0.highAvg == high0 && s.bit0.periodAvg == period0 && s.bit1.highAvg == high1
          && s.bit1.periodAvg == period1
  {
    assert forall i :: 0 <= i < |f| - 1 ==> IsIdealSymbol(f, i, bits[i], high0, period0, high1, period1) ==>
      High(f[i]) == if bits[i] then high1 else high0;
    hide *;
    IdealSpread(f, bits, high0, high1, zero, one);
    IdealSize(f, bits, high0, high1, false);
    IdealSize(f, bits, high0, high1, true);
    ReadParts(f);
    IdealClasses(f, bits, high0, period0, high1, period1, zero, one);
  }

  lemma ReadParts(f: Frame)
    requires UsableHighs(f, |f|) != []
    ensures var r := SpecRead(f);
      && r.isValid == (|UsableHighs(f, |f|)| >= READ_MIN_BITS) && r.stats.usableCount == |UsableHighs(f, |f|)|
      && r.stats.bit0 == SpecReadClass(f, SpreadOf(f), false) && r.stats.bit1 == SpecReadClass(f, SpreadOf(f), true)
  {
    hide UsableHighs; hide SpreadOf; hide SpecReadClass;
  }

  lemma IdealSize(f: Frame, bits: seq<bool>, high0: nat, high1: nat, bit: bool)
    requires |bits| == |f| > 1 && high1 >= high0 + READ_SPLIT_MIN_NS
    requires forall i :: 0 <= i < |f| - 1 ==> IsReadSymbolUsable(f, i) && High(f[i]) == if bits[i] then high1 else high0
    ensures |UsableHighs(f, |f|)| == |f| - 1 && UsableHighs(f, |f|) != []
    ensures SpecReadClass(f, Spread(high0, high1), bit).count == CountBits(bits[..|f| - 1], bit)
  {
    IdealCounts(f, bits, high0, high1, bit, |f| - 1);
    assert !IsReadSymbolUsable(f, |f| - 1);
    hide High; hide CountBits;
  }

  lemma IdealClasses(f: Frame, bits: seq<bool>, high0: nat, period0: nat, high1: nat, period1: nat, zero: nat, one: nat)
    requires |bits| == |f| && high1 >= high0 + READ_SPLIT_MIN_NS
    requires forall i :: 0 <= i < |f| - 1 ==>
               IsReadSymbolUsable(f, i) && IsIdealSymbol(f, i, bits[i], high0, period0, high1, period1)
    requires zero < |f| - 1 && !bits[zero] && one < |f| - 1 && bits[one]
    ensures var s := Spread(high0, high1);
      && SpecReadClass(f, s, false).highAvg == high0 && SpecReadClass(f, s, false).periodAvg == period0
      && SpecReadClass(f, s, true).highAvg == high1 && SpecReadClass(f, s, true).periodAvg == period1
  {
    IdealClass(f, bits, Spread(high0, high1), false, high0, period0, zero);
    IdealClass(f, bits, Spread(high0, high1), true, high1, period1, one);
  }

  /** The spread of an ideal frame is its two high times. */
  lemma IdealSpread(f: Frame, bits: seq<bool>, high0: nat, high1: nat, zero: nat, one: nat)
    requires |bits| == |f| && high1 >= high0 + READ_SPLIT_MIN_NS
    requires forall i :: 0 <= i < |f| - 1 ==> IsReadSymbolUsable(f, i) && High(f[i]) == if bits[i] then high1 else high0
    requires zero < |f| - 1 && !bits[zero] && one < |f| - 1 && bits[one]
    ensures SpreadOf(f) == Spread(high0, high1)
  {
    UsableOccurs(f, |f|, zero);
    var shortest, longest := SpreadAttained(f);
    hide SpreadOf; hide UsableHighs; hide High;
    assert SpreadOf(f).min <= High(f[zero]) && High(f[one]) <= SpreadOf(f).max;
    assert shortest < |f| - 1 && longest < |f| - 1;
  }

  lemma IdealClass(f: Frame, bits: seq<bool>, s: Spread, bit: bool, high: nat, period: nat, witness0: nat)
    requires |bits| == |f| && witness0 < |f| && IsInClass(f, s, bit, witness0)
    requires forall i :: 0 <= i < |f| && IsInClass(f, s, bit, i) ==> High(f[i]) == high && Period(f[i]) == period
    ensures SpecReadClass(f, s, bit).highAvg == high && SpecReadClass(f, s, bit).periodAvg == period
  {
    ClassOccurs(f, s, bit, |f|, witness0);
    SameCount(f, s, bit, |f|);
    ClassValuesWithin(f, s, bit, false, |f|, high, high);
    ClassValuesWithin(f, s, bit, true, |f|, period, period);
    AverageBounds(ClassValues(f, s, bit, false, |f|), high, high);
    AverageBounds(ClassValues(f, s, bit, true, |f|), period, period);
  }
}
