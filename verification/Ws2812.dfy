/**
 * WS2812 timing (main/ws2812_timing/ws2812_timing.c), its encoding into RMT symbols
 * (main/led_controller/led_controller.c) and the shared vocabulary of captured frames.
 */
module Ws2812 {
  const TICK_NS := 25
  const DATA_SYMBOLS := 144
  const PIXEL_BYTES := 18
  const DURATION_LIMIT := 0x8000           // rmt_symbol_word_t holds 15-bit durations
  const UINT32_LIMIT := 0x1_0000_0000

  type Byte = b: int | 0 <= b < 256
  type Duration = d: int | 0 <= d < DURATION_LIMIT

  datatype Timing = Timing(bit0High: nat, bit0Period: nat, bit1High: nat, bit1Period: nat, resetUs: nat)

  datatype Symbol = Symbol(level0: bool, duration0: Duration, level1: bool, duration1: Duration)

  type Frame = seq<Symbol>
  type Pixels = seq<Byte>

  // Validation of a submitted timing set.

  datatype TimingResult = TimingOk | OutOfRange | BadCombination | BadDutyOrder

  predicate IsOnStep(value: nat, min: nat, max: nat, step: nat)
    requires step > 0
  {
    min <= value <= max && value % step == 0
  }

  predicate IsInRange(t: Timing) {
    && IsOnStep(t.bit0High, 100, 1200, 25) && IsOnStep(t.bit0Period, 800, 2000, 25)
    && IsOnStep(t.bit1High, 100, 1200, 25) && IsOnStep(t.bit1Period, 800, 2000, 25)
    && IsOnStep(t.resetUs, 50, 800, 10)
  }

  function ValidateWs2812Timing(t: Timing): TimingResult {
    if !IsInRange(t) then OutOfRange
    else if t.bit0Period - t.bit0High < 100 || t.bit1Period - t.bit1High < 100 then BadCombination
    else if t.bit0High * t.bit1Period >= t.bit1High * t.bit0Period then BadDutyOrder
    else TimingOk
  }

  // Encoding.

  function NsToTicks(durationNs: nat): nat {
    (durationNs + TICK_NS / 2) / TICK_NS % 0x10000      // uint16_t
  }

  function TicksToNs(ticks: nat): nat {
    ticks * TICK_NS % UINT32_LIMIT                      // uint32_t
  }

  function Truncate15(ticks: nat): Duration { ticks % DURATION_LIMIT }

  function BitSymbol(highNs: nat, periodNs: nat): Symbol
    requires highNs <= periodNs
  {
    Symbol(true, Truncate15(NsToTicks(highNs)), false, Truncate15(NsToTicks(periodNs - highNs)))
  }

  function ResetSymbol(t: Timing): Symbol {
    Symbol(false, Truncate15(NsToTicks(t.resetUs * 1000)), false, 0)
  }

  /** Bit `index` of the pixel bytes, most significant bit first; beyond the bytes it is 0. */
  predicate PixelBit(pixels: Pixels, index: nat) {
    index / 8 < |pixels| && BitOf(pixels[index / 8], 7 - index % 8)
  }

  predicate BitOf(b: Byte, position: nat)
    requires position < 8
  {
    b / PowerOfTwo(position) % 2 == 1
  }

  function PowerOfTwo(n: nat): (p: nat)
    ensures p > 0
  {
    if n == 0 then 1 else 2 * PowerOfTwo(n - 1)
  }

  function CommandedHigh(t: Timing, bit: bool): nat { if bit then t.bit1High else t.bit0High }

  function CommandedPeriod(t: Timing, bit: bool): nat { if bit then t.bit1Period else t.bit0Period }

  /** The data symbols that the bytes encoder puts on the wire, followed by the reset symbol. */
  function EncodeFrame(t: Timing, pixels: Pixels): (frame: Frame)
    requires t.bit0High <= t.bit0Period && t.bit1High <= t.bit1Period
    ensures |frame| == 8 * |pixels| + 1
  {
    seq(8 * |pixels|, i requires 0 <= i => BitSymbol(CommandedHigh(t, PixelBit(pixels, i)), CommandedPeriod(t,
        PixelBit(pixels, i))))
    + [ResetSymbol(t)]
  }

  lemma ExactTicks(ns: nat)
    requires ns % 25 == 0 && ns < 25 * DURATION_LIMIT
    ensures NsToTicks(ns) == ns / 25 < DURATION_LIMIT && TicksToNs(NsToTicks(ns)) == ns
  {
    assert (ns + 12) / 25 == ns / 25;
  }

  lemma BitExact(high: nat, period: nat)
    requires high % 25 == 0 && period % 25 == 0 && high <= period <= 2000
    ensures TicksToNs(BitSymbol(high, period).duration0) == high
    ensures TicksToNs(BitSymbol(high, period).duration1) == period - high
  {
    assert (period - high) % 25 == 0;
    hide NsToTicks; hide TicksToNs;
    ExactTicks(high);
    ExactTicks(period - high);
  }

  lemma ResetExact(t: Timing)
    requires t.resetUs <= 800
    ensures TicksToNs(ResetSymbol(t).duration0) == t.resetUs * 1000
  {
    assert t.resetUs * 1000 == 25 * (t.resetUs * 40);
    ExactTicks(t.resetUs * 1000);
  }

  /** Every accepted timing set is encoded without truncation, and measured back exactly. */
  lemma AcceptedTimingExact(t: Timing)
    requires ValidateWs2812Timing(t) == TimingOk
    ensures TicksToNs(BitSymbol(t.bit0High, t.bit0Period).duration0) == t.bit0High
    ensures TicksToNs(BitSymbol(t.bit0High, t.bit0Period).duration1) == t.bit0Period - t.bit0High >= 100
    ensures TicksToNs(BitSymbol(t.bit1High, t.bit1Period).duration0) == t.bit1High
    ensures TicksToNs(BitSymbol(t.bit1High, t.bit1Period).duration1) == t.bit1Period - t.bit1High >= 100
    ensures TicksToNs(ResetSymbol(t).duration0) == t.resetUs * 1000
  {
    hide TicksToNs;
    hide BitSymbol;
    hide ResetSymbol;
    BitExact(t.bit0High, t.bit0Period);
    BitExact(t.bit1High, t.bit1Period);
    ResetExact(t);
  }

  /** The cross products of the duty comparison never overflow, whatever the client submits within range. */
  lemma DutyProductsFit(t: Timing)
    requires IsInRange(t)
    ensures t.bit0High * t.bit1Period < UINT32_LIMIT && t.bit1High * t.bit0Period < UINT32_LIMIT
  {
    MulMono(t.bit0High, 1200, t.bit1Period);
    MulMono(t.bit1High, 1200, t.bit0Period);
  }

  lemma MulMono(a: int, b: int, n: nat)
    requires a <= b
    ensures a * n <= b * n
  {
  }

  // What is accepted, and what goes on the wire.

  /**
   * A timing set is accepted exactly if every value lies on its grid in its range, both low times are at least 100 ns,
   * and bit 0 has the smaller duty; otherwise the first of these three that fails is reported.
   */
  lemma TimingAcceptedIff(t: Timing)
    ensures var onGrid :=
        && 100 <= t.bit0High <= 1200 && 100 <= t.bit1High <= 1200 && t.bit0High % 25 == t.bit1High % 25 == 0
        && 800 <= t.bit0Period <= 2000 && 800 <= t.bit1Period <= 2000 && t.bit0Period % 25 == t.bit1Period % 25 == 0
        && 50 <= t.resetUs <= 800 && t.resetUs % 10 == 0;
      var hasLow := t.bit0High + 100 <= t.bit0Period && t.bit1High + 100 <= t.bit1Period;
      && (ValidateWs2812Timing(t) == OutOfRange <==> !onGrid)
      && (ValidateWs2812Timing(t) == BadCombination <==> onGrid && !hasLow)
      && (ValidateWs2812Timing(t) == BadDutyOrder <==> onGrid && hasLow && !IsDutyBelow(t))
      && (ValidateWs2812Timing(t) == TimingOk <==> onGrid && hasLow && IsDutyBelow(t))
  {
    if t.bit0Period > 0 && t.bit1Period > 0 {
      DutyOrder(t.bit0High, t.bit0Period, t.bit1High, t.bit1Period);
    }
  }

  /** The share of its period for which bit 0 is high is below that of bit 1. */
  ghost predicate IsDutyBelow(t: Timing) {
    && t.bit0Period > 0 && t.bit1Period > 0
    && t.bit0High as real / t.bit0Period as real < t.bit1High as real / t.bit1Period as real
  }

  lemma DutyOrder(h0: nat, p0: nat, h1: nat, p1: nat)
    requires p0 > 0 && p1 > 0
    ensures h0 as real / p0 as real < h1 as real / p1 as real <==> h0 * p1 < h1 * p0
  {
    var a, b, c, d := h0 as real, p0 as real, h1 as real, p1 as real;
    CrossProduct(a, b, c, d);
    assert (h0 * p1) as real == a * d && (h1 * p0) as real == c * b;
  }

  lemma CrossProduct(a: real, b: real, c: real, d: real)
    requires b > 0.0 && d > 0.0
    ensures a / b < c / d <==> a * d < c * b
  {
    var x, y := a / b, c / d;
    assert a == x * b && c == y * d;
    assert a * d == x * (b * d) && c * b == y * (b * d);
    Scaled(x, y, b * d);
  }

  lemma Scaled(x: real, y: real, s: real)
    requires s > 0.0
    ensures x < y <==> x * s < y * s
  {
  }

  function BitValue(pixels: Pixels, index: nat): nat { if PixelBit(pixels, index) then 1 else 0 }

  /** The eight bits of a pixel byte go out most significant first: together they are its value. */
  lemma MostSignificantFirst(pixels: Pixels, i: nat)
    requires i < |pixels|
    ensures pixels[i] == 128 * BitValue(pixels, 8 * i) + 64 * BitValue(pixels, 8 * i + 1)
                      + 32 * BitValue(pixels, 8 * i + 2) + 16 * BitValue(pixels, 8 * i + 3)
                      + 8 * BitValue(pixels, 8 * i + 4) + 4 * BitValue(pixels, 8 * i + 5)
                      + 2 * BitValue(pixels, 8 * i + 6) + BitValue(pixels, 8 * i + 7)
  {
    BitsOfByte(pixels[i]);
    hide PixelBit; hide BitOf;
    PixelBitIs(pixels, i, 0);
    PixelBitIs(pixels, i, 1);
    PixelBitIs(pixels, i, 2);
    PixelBitIs(pixels, i, 3);
    PixelBitIs(pixels, i, 4);
    PixelBitIs(pixels, i, 5);
    PixelBitIs(pixels, i, 6);
    PixelBitIs(pixels, i, 7);
  }

  lemma PixelBitIs(pixels: Pixels, i: nat, k: nat)
    requires i < |pixels| && k < 8
    ensures PixelBit(pixels, 8 * i + k) == BitOf(pixels[i], 7 - k)
  {
    assert (8 * i + k) / 8 == i && (8 * i + k) % 8 == k;
  }

  lemma PowersOfTwo()
    ensures PowerOfTwo(0) == 1 && PowerOfTwo(1) == 2 && PowerOfTwo(2) == 4 && PowerOfTwo(3) == 8
    ensures PowerOfTwo(4) == 16 && PowerOfTwo(5) == 32 && PowerOfTwo(6) == 64 && PowerOfTwo(7) == 128
  {
    assert PowerOfTwo(2) == 4;
    assert PowerOfTwo(4) == 4 * PowerOfTwo(2);
    assert PowerOfTwo(6) == 4 * PowerOfTwo(4);
  }

  function Weight(b: Byte, position: nat): nat
    requires position < 8
  {
    if BitOf(b, position) then 1 else 0
  }

  lemma WeightIs(b: Byte, position: nat, power: nat)
    requires position < 8 && power == PowerOfTwo(position)
    ensures Weight(b, position) == b / power % 2
  {
  }

  lemma BitsOfByte(b: Byte)
    ensures b == 128 * Weight(b, 7) + 64 * Weight(b, 6) + 32 * Weight(b, 5) + 16 * Weight(b, 4)
               + 8 * Weight(b, 3) + 4 * Weight(b, 2) + 2 * Weight(b, 1) + Weight(b, 0)
  {
    hide PowerOfTwo; hide Weight;
    PowersOfTwo();
    WeightIs(b, 0, 1);
    WeightIs(b, 1, 2);
    WeightIs(b, 2, 4);
    WeightIs(b, 3, 8);
    WeightIs(b, 4, 16);
    WeightIs(b, 5, 32);
    WeightIs(b, 6, 64);
    WeightIs(b, 7, 128);
    Halves(b);
  }

  lemma Halves(b: Byte)
    ensures b == 128 * (b / 128 % 2) + 64 * (b / 64 % 2) + 32 * (b / 32 % 2) + 16 * (b / 16 % 2)
               + 8 * (b / 8 % 2) + 4 * (b / 4 % 2) + 2 * (b / 2 % 2) + b / 1 % 2
  {
    assert b / 4 == b / 2 / 2;
    assert b / 8 == b / 4 / 2;
    assert b / 16 == b / 8 / 2;
    assert b / 32 == b / 16 / 2;
    assert b / 64 == b / 32 / 2;
    assert b / 128 == b / 64 / 2;
  }

  /**
   * For an accepted timing set the frame is, bit by bit, high for the commanded time of that bit and low for the rest
   * of its period, then low for the reset time.
   */
  lemma FrameOnWire(t: Timing, pixels: Pixels, i: nat)
    requires ValidateWs2812Timing(t) == TimingOk && i < 8 * |pixels|
    ensures var f, bit := EncodeFrame(t, pixels), PixelBit(pixels, i);
      && |f| == 8 * |pixels| + 1
      && f[i].level0 && 25 * f[i].duration0 == (if bit then t.bit1High else t.bit0High)
      && !f[i].level1 && 25 * f[i].duration1 == (if bit then t.bit1Period - t.bit1High else t.bit0Period - t.bit0High)
      && !f[|f| - 1].level0 && !f[|f| - 1].level1
      && 25 * (f[|f| - 1].duration0 + f[|f| - 1].duration1) == 1000 * t.resetUs
  {
    AcceptedTimingExact(t);
    var bit := PixelBit(pixels, i);
    assert EncodeFrame(t, pixels)[i] == BitSymbol(CommandedHigh(t, bit), CommandedPeriod(t, bit));
    hide TicksToNs; hide NsToTicks; hide Truncate15; hide PixelBit;
    var f := EncodeFrame(t, pixels);
    DurationNs(f[i].duration0);
    DurationNs(f[i].duration1);
    DurationNs(f[|f| - 1].duration0);
  }

  lemma DurationNs(d: Duration)
    ensures TicksToNs(d) == 25 * d
  {
  }

  // Averages as the firmware rounds them.

  function Sum(xs: seq<nat>): nat {
    if xs == [] then 0 else Sum(xs[..|xs| - 1]) + xs[|xs| - 1]
  }

  function RoundedAverage(sum: nat, count: nat): nat {
    if count > 0 then (sum + count / 2) / count else 0
  }

  ghost predicate AllWithin(xs: seq<nat>, low: nat, high: nat) {
    forall k :: 0 <= k < |xs| ==> low <= xs[k] <= high
  }

  lemma {:induction false} SumBounds(xs: seq<nat>, low: nat, high: nat)
    requires AllWithin(xs, low, high)
    ensures low * |xs| <= Sum(xs) <= high * |xs|
  {
    if xs != [] {
      SumBounds(xs[..|xs| - 1], low, high);
      assert low * |xs| == low * (|xs| - 1) + low && high * |xs| == high * (|xs| - 1) + high;
    }
  }

  /** The rounded average lies between the extremes and within one half of the true mean. */
  lemma AverageBounds(xs: seq<nat>, low: nat, high: nat)
    requires xs != [] && AllWithin(xs, low, high)
    ensures low <= RoundedAverage(Sum(xs), |xs|) <= high
    ensures -(|xs| as int) <= 2 * (RoundedAverage(Sum(xs), |xs|) * |xs| - Sum(xs)) <= |xs|
  {
    SumBounds(xs, low, high);
    RoundingError(Sum(xs), |xs|);
    RoundingInside(Sum(xs), |xs|, low, high);
  }

  lemma RoundingInside(sum: nat, count: nat, low: nat, high: nat)
    requires count > 0 && low * count <= sum <= high * count
    ensures low <= RoundedAverage(sum, count) <= high
  {
    var a := RoundedAverage(sum, count);
    DivisionBounds(sum + count / 2, count);
    if a < low {
      MulMono(a + 1, low, count);
      Successor(a, count);
    }
    if a > high {
      MulMono(high + 1, a, count);
      Successor(high, count);
    }
  }

  lemma DivisionBounds(x: nat, n: nat)
    requires n > 0
    ensures x / n * n <= x < x / n * n + n
  {
    assert x == x / n * n + x % n;
  }

  lemma Successor(a: nat, n: nat)
    ensures (a + 1) * n == a * n + n
  {
  }

  lemma RoundingError(sum: nat, count: nat)
    requires count > 0
    ensures -(count as int) <= 2 * (RoundedAverage(sum, count) * count - sum) <= count
  {
    var shifted := sum + count / 2;
    assert shifted == shifted / count * count + shifted % count;
  }
}
