/** Channel conversion and linear resampling of interleaved audio, over exact rationals. */
module Resampler {
  import opened Common

  /** Frame `frame`, channel `channel` of interleaved audio is inside the first `frames` frames. */
  lemma InterleavedIndex(frame: nat, channel: nat, frames: nat, channels: nat)
    requires frame < frames && channel < channels
    ensures 0 <= frame * channels + channel < frames * channels
  {
    MulMonotone(frame + 1, frames, channels);
    assert (frame + 1) * channels == frame * channels + channels;
  }

  // ---------------------------------------------------------------------------
  // Channel conversion.

  function Sum(s: seq<real>): real {
    if s == [] then 0.0 else Sum(s[..|s| - 1]) + s[|s| - 1]
  }

  /** One converted sample: the mean of a frame for mono, else the matching or the last source channel. */
  function ConvertedSample(frame: seq<real>, targetChannels: nat, channel: nat): real
    requires frame != []
  {
    if |frame| == targetChannels then if channel < |frame| then frame[channel] else 0.0
    else if targetChannels == 1 then Sum(frame) / |frame| as real
    else frame[Min(channel, |frame| - 1)]
  }

  lemma {:induction false} SumFromFront(s: seq<real>)
    requires s != []
    ensures Sum(s) == s[0] + Sum(s[1..])
  {
    if |s| > 1 {
      SumFromFront(s[..|s| - 1]);
      assert s[1..][..|s| - 2] == s[..|s| - 1][1..];
    }
  }

  predicate Within(s: seq<real>, low: real, high: real) {
    forall i | 0 <= i < |s| :: low <= s[i] <= high
  }

  lemma {:induction false} SumIsBetween(s: seq<real>, low: real, high: real)
    requires Within(s, low, high)
    ensures low * |s| as real <= Sum(s) <= high * |s| as real
  {
    if s != [] {
      SumIsBetween(s[..|s| - 1], low, high);
      OneMoreTimes(low, |s| - 1);
      OneMoreTimes(high, |s| - 1);
    }
  }

  lemma OneMoreTimes(x: real, n: nat)
    ensures x * (n + 1) as real == x * n as real + x
  {
    assert (n + 1) as real == n as real + 1.0;
  }

  /**
   * What a converted sample is: the same channel, when there are as many; for mono, a mean in which
   * every channel weighs the same; else the same channel or, beyond the source's, its last one.
   */
  lemma ConversionKeepsChannels(frame: seq<real>, targetChannels: nat, channel: nat)
    requires frame != [] && channel < targetChannels
    ensures (|frame| == targetChannels || targetChannels > 1) && channel < |frame| ==>
              ConvertedSample(frame, targetChannels, channel) == frame[channel]
    ensures targetChannels > 1 && channel >= |frame| ==>
              ConvertedSample(frame, targetChannels, channel) == frame[|frame| - 1]
    ensures targetChannels == 1 ==> ConvertedSample(frame, 1, 0) * |frame| as real == frame[0] + Sum(frame[1..])
    ensures targetChannels == 1 && |frame| == 2 ==> ConvertedSample(frame, 1, 0) == (frame[0] + frame[1]) / 2.0
  {
    MonoIsSum(frame);
    SumFromFront(frame);
    if |frame| == 2 {
      SumFromFront(frame[1..]);
      assert frame[1..][1..] == [];
    }
  }

  lemma MonoIsSum(frame: seq<real>)
    requires frame != []
    ensures ConvertedSample(frame, 1, 0) == Sum(frame) / |frame| as real
    ensures ConvertedSample(frame, 1, 0) * |frame| as real == Sum(frame)
  {
    if |frame| == 1 {
      SumFromFront(frame);
      assert frame[1..] == [];
    }
  }

  /** A mono sample lies between the lowest and the highest of its frame. */
  lemma MonoIsBetween(frame: seq<real>, low: real, high: real)
    requires frame != [] && Within(frame, low, high)
    ensures low <= ConvertedSample(frame, 1, 0) <= high
  {
    MonoIsSum(frame);
    SumIsBetween(frame, low, high);
    QuotientBetween(Sum(frame), |frame|, low, high);
    hide ConvertedSample, Sum;
  }

  lemma Ordered(a: real, b: real, n: nat)
    requires n > 0
    ensures a < b ==> a * n as real < b * n as real
  {
  }

  lemma QuotientBetween(sum: real, n: nat, low: real, high: real)
    requires n > 0 && low * n as real <= sum <= high * n as real
    ensures low <= sum / n as real <= high
  {
    var q := sum / n as real;
    assert q * n as real == sum;
    Ordered(q, low, n);
    Ordered(high, q, n);
  }

  lemma FrameSlice(frame: nat, frames: nat, channels: nat, length: nat)
    requires frame < frames && frames * channels == length
    ensures 0 <= frame * channels <= (frame + 1) * channels <= length
    ensures (frame + 1) * channels == frame * channels + channels
  {
    MulMonotone(frame + 1, frames, channels);
  }

  /** The samples of one frame. */
  function FrameAt(samples: seq<real>, frame: nat, frames: nat, channels: nat): (r: seq<real>)
    requires frame < frames && |samples| == frames * channels
    ensures |r| == channels
  {
    FrameSlice(frame, frames, channels, |samples|);
    samples[frame * channels..(frame + 1) * channels]
  }

  method ConvertChannels(samples: seq<real>, frames: nat, sourceChannels: nat, targetChannels: nat)
    returns (output: seq<real>)
    requires sourceChannels > 0 && targetChannels > 0 && |samples| == frames * sourceChannels
    ensures |output| == frames * targetChannels
    ensures forall i, c | 0 <= i < frames && 0 <= c < targetChannels ::
              FrameAt(output, i, frames, targetChannels)[c]
              == ConvertedSample(FrameAt(samples, i, frames, sourceChannels), targetChannels, c)
  {
    if sourceChannels == targetChannels { return samples; }
    output := [];
    for i := 0 to frames
      invariant |output| == i * targetChannels
      invariant forall j, c | 0 <= j < i && 0 <= c < targetChannels ::
                  FrameAt(output, j, i, targetChannels)[c]
                  == ConvertedSample(FrameAt(samples, j, frames, sourceChannels), targetChannels, c)
    {
      var frame := FrameAt(samples, i, frames, sourceChannels);
      var converted: seq<real>;
      if targetChannels == 1 {
        converted := [Sum(frame) / sourceChannels as real];
      } else {
        converted := seq(targetChannels, c requires 0 <= c < targetChannels => frame[Min(c, sourceChannels - 1)]);
      }
      AppendFrame(output, i, targetChannels, converted);
      output := output + converted;
    }
  }

  lemma AppendFrame(samples: seq<real>, frames: nat, channels: nat, frame: seq<real>)
    requires |samples| == frames * channels && |frame| == channels
    ensures |samples + frame| == (frames + 1) * channels
    ensures forall i | 0 <= i < frames ::
              FrameAt(samples + frame, i, frames + 1, channels) == FrameAt(samples, i, frames, channels)
    ensures FrameAt(samples + frame, frames, frames + 1, channels) == frame
  {
    var longer := samples + frame;
    assert (frames + 1) * channels == frames * channels + channels;
    forall i | 0 <= i < frames
      ensures FrameAt(longer, i, frames + 1, channels) == FrameAt(samples, i, frames, channels)
    {
      FrameSlice(i, frames, channels, |samples|);
    }
  }

  // ---------------------------------------------------------------------------
  // Linear resampling.

  predicate ValidRate(rate: nat) {
    0 < rate <= U32_MAX
  }

  /** How many frames the resampler returns. */
  function OutputFrames(inputFrames: nat, sourceRate: nat, targetRate: nat): nat
    requires sourceRate > 0
  {
    if sourceRate == targetRate || inputFrames <= 1 then inputFrames
    else Max((inputFrames * targetRate + sourceRate / 2) / sourceRate, 1)
  }

  /** The source frame at or before output frame `j`. */
  function Lower(j: nat, sourceRate: nat, targetRate: nat): nat
    requires targetRate > 0
  {
    j * sourceRate / targetRate
  }

  function Upper(j: nat, inputFrames: nat, sourceRate: nat, targetRate: nat): int
    requires targetRate > 0
  {
    Min(Lower(j, sourceRate, targetRate) + 1, inputFrames - 1)
  }

  /** How far output frame `j` lies past its lower source frame. */
  function Fraction(j: nat, sourceRate: nat, targetRate: nat): (f: real)
    requires targetRate > 0
    ensures 0.0 <= f < 1.0
  {
    (j * sourceRate % targetRate) as real / targetRate as real
  }

  /** The last output frame starts before the input ends, so every source index is in bounds. */
  lemma SourceIndexInBounds(inputFrames: nat, sourceRate: nat, targetRate: nat, j: nat)
    requires inputFrames >= 2 && sourceRate > 0 && targetRate > 0 && sourceRate != targetRate
    requires j < OutputFrames(inputFrames, sourceRate, targetRate)
    ensures Lower(j, sourceRate, targetRate) < inputFrames
    ensures Lower(j, sourceRate, targetRate) <= Upper(j, inputFrames, sourceRate, targetRate) < inputFrames
  {
    var total := inputFrames * targetRate + sourceRate / 2;
    var n := OutputFrames(inputFrames, sourceRate, targetRate);
    if j >= 1 {
      var q := total / sourceRate;
      assert q * sourceRate <= total;
      MulMonotone(j + 1, q, sourceRate);
      assert (j + 1) * sourceRate == j * sourceRate + sourceRate;
      assert j * sourceRate < inputFrames * targetRate;
    }
    QuotientBelow(j * sourceRate, targetRate, inputFrames);
  }

  lemma QuotientBelow(a: nat, b: nat, c: nat)
    requires b > 0 && (a == 0 || a < c * b) && c > 0
    ensures a / b < c
  {
    var q := a / b;
    assert q * b <= a;
    if q >= c { MulMonotone(c, q, b); }
  }

  /** The point at fraction `f` of the way from one sample to the next. */
  function Blend(first: real, second: real, f: real): real {
    first + (second - first) * f
  }

  /** The interpolated sample of output frame `j`. */
  function Interpolated(
      samples: seq<real>, inputFrames: nat, channels: nat, sourceRate: nat, targetRate: nat, j: nat, c: nat): real
    requires inputFrames >= 2 && |samples| == inputFrames * channels && c < channels
    requires sourceRate > 0 && targetRate > 0 && sourceRate != targetRate
    requires j < OutputFrames(inputFrames, sourceRate, targetRate)
  {
    SourceIndexInBounds(inputFrames, sourceRate, targetRate, j);
    var first := FrameAt(samples, Lower(j, sourceRate, targetRate), inputFrames, channels)[c];
    var second := FrameAt(samples, Upper(j, inputFrames, sourceRate, targetRate), inputFrames, channels)[c];
    Blend(first, second, Fraction(j, sourceRate, targetRate))
  }

  method ResampleLinear(samples: seq<real>, inputFrames: nat, channels: nat, sourceRate: nat, targetRate: nat)
    returns (output: seq<real>, outputFrames: nat)
    requires inputFrames <= U32_MAX && ValidRate(sourceRate) && ValidRate(targetRate)
    requires |samples| == inputFrames * channels
    ensures outputFrames == OutputFrames(inputFrames, sourceRate, targetRate)
    ensures |output| == outputFrames * channels
    ensures sourceRate == targetRate || inputFrames <= 1 ==> output == samples
    ensures sourceRate != targetRate && inputFrames > 1 ==>
              forall j, c | 0 <= j < outputFrames && 0 <= c < channels ::
                FrameAt(output, j, outputFrames, channels)[c]
                == Interpolated(samples, inputFrames, channels, sourceRate, targetRate, j, c)
  {
    if sourceRate == targetRate || inputFrames <= 1 {
      return samples, inputFrames;
    }
    hide Interpolated, FrameAt;
    NoWideOverflow(inputFrames, sourceRate, targetRate);
    outputFrames := Max((inputFrames * targetRate + sourceRate / 2) / sourceRate, 1);
    output := [];
    for j := 0 to outputFrames
      invariant |output| == j * channels
      invariant forall k, c | 0 <= k < j && 0 <= c < channels ::
                  FrameAt(output, k, j, channels)[c]
                  == Interpolated(samples, inputFrames, channels, sourceRate, targetRate, k, c)
    {
      var frame := InterpolateFrame(samples, inputFrames, channels, sourceRate, targetRate, j);
      AppendFrame(output, j, channels, frame);
      output := output + frame;
    }
  }

  /** The inner loop: one output frame, channel by channel. */
  method InterpolateFrame(samples: seq<real>, inputFrames: nat, channels: nat, sourceRate: nat, targetRate: nat, j: nat)
    returns (frame: seq<real>)
    requires inputFrames >= 2 && |samples| == inputFrames * channels
    requires sourceRate > 0 && targetRate > 0 && sourceRate != targetRate
    requires j < OutputFrames(inputFrames, sourceRate, targetRate)
    ensures |frame| == channels
    ensures forall c | 0 <= c < channels ::
              frame[c] == Interpolated(samples, inputFrames, channels, sourceRate, targetRate, j, c)
  {
    var lower := Lower(j, sourceRate, targetRate);
    var upper := Upper(j, inputFrames, sourceRate, targetRate);
    var fraction := Fraction(j, sourceRate, targetRate);
    SourceIndexInBounds(inputFrames, sourceRate, targetRate, j);
    hide Lower, Upper, Fraction, OutputFrames, Blend;
    frame := [];
    for c := 0 to channels
      invariant |frame| == c
      invariant forall d | 0 <= d < c ::
                  frame[d] == Interpolated(samples, inputFrames, channels, sourceRate, targetRate, j, d)
    {
      InterleavedIndex(lower, c, inputFrames, channels);
      InterleavedIndex(upper, c, inputFrames, channels);
      FrameSlice(lower, inputFrames, channels, |samples|);
      FrameSlice(upper, inputFrames, channels, |samples|);
      var first := samples[lower * channels + c];
      var second := samples[upper * channels + c];
      frame := frame + [Blend(first, second, fraction)];
    }
  }

  /** The frame-count arithmetic stays within 64 bits. */
  lemma NoWideOverflow(inputFrames: nat, sourceRate: nat, targetRate: nat)
    requires inputFrames <= U32_MAX && ValidRate(sourceRate) && ValidRate(targetRate)
    ensures inputFrames * targetRate + sourceRate / 2 <= U64_MAX
  {
    MulMonotone(inputFrames, U32_MAX, targetRate);
    MulMonotone(targetRate, U32_MAX, U32_MAX);
  }

  // ---------------------------------------------------------------------------
  // What resampling promises.

  /** Every output sample lies between the two source samples around it. */
  lemma InterpolationIsBetween(
      samples: seq<real>, inputFrames: nat, channels: nat, sourceRate: nat, targetRate: nat, j: nat, c: nat)
    requires inputFrames >= 2 && |samples| == inputFrames * channels && c < channels
    requires sourceRate > 0 && targetRate > 0 && sourceRate != targetRate
    requires j < OutputFrames(inputFrames, sourceRate, targetRate)
    ensures Lower(j, sourceRate, targetRate) <= Upper(j, inputFrames, sourceRate, targetRate) < inputFrames
    ensures var a := FrameAt(samples, Lower(j, sourceRate, targetRate), inputFrames, channels)[c];
            var b := FrameAt(samples, Upper(j, inputFrames, sourceRate, targetRate), inputFrames, channels)[c];
            var x := Interpolated(samples, inputFrames, channels, sourceRate, targetRate, j, c);
            if a <= b then a <= x <= b else b <= x <= a
  {
    SourceIndexInBounds(inputFrames, sourceRate, targetRate, j);
    hide Lower, Upper, Fraction, FrameAt, OutputFrames, Blend;
    var a := FrameAt(samples, Lower(j, sourceRate, targetRate), inputFrames, channels)[c];
    var b := FrameAt(samples, Upper(j, inputFrames, sourceRate, targetRate), inputFrames, channels)[c];
    BlendIsBetween(a, b, Fraction(j, sourceRate, targetRate));
  }

  lemma BlendIsBetween(a: real, b: real, f: real)
    requires 0.0 <= f < 1.0
    ensures var x := Blend(a, b, f);
            if a <= b then a <= x <= b else b <= x <= a
  {
    var d := b - a;
    assert d * (1.0 - f) == d - d * f;
    if d >= 0.0 {
      ProductNonNegative(d, f);
      ProductNonNegative(d, 1.0 - f);
    } else {
      ProductNonNegative(-d, f);
      ProductNonNegative(-d, 1.0 - f);
      assert (-d) * f == -(d * f) && (-d) * (1.0 - f) == -(d * (1.0 - f));
    }
  }

  lemma ProductNonNegative(x: real, y: real)
    requires x >= 0.0 && y >= 0.0
    ensures x * y >= 0.0
  {
  }

  /** The straight line through `start` with slope `slope`, at time `t`. */
  function Line(start: real, slope: real, t: real): real {
    start + slope * t
  }

  /**
   * A channel that is a straight line in time keeps its line: linear signals are reproduced exactly up
   * to the last source frame.
   */
  lemma LinesAreReproduced(
      samples: seq<real>, inputFrames: nat, channels: nat, sourceRate: nat, targetRate: nat, j: nat, c: nat,
      start: real, slope: real)
    requires inputFrames >= 2 && |samples| == inputFrames * channels && c < channels
    requires sourceRate > 0 && targetRate > 0 && sourceRate != targetRate
    requires j < OutputFrames(inputFrames, sourceRate, targetRate)
    requires forall k | 0 <= k < inputFrames ::
              FrameAt(samples, k, inputFrames, channels)[c] == Line(start, slope, k as real)
    ensures var time := (j * sourceRate) as real / targetRate as real;
            var last := (inputFrames - 1) as real;
            Interpolated(samples, inputFrames, channels, sourceRate, targetRate, j, c)
            == Line(start, slope, if time <= last then time else last)
  {
    SourceIndexInBounds(inputFrames, sourceRate, targetRate, j);
    var lower := Lower(j, sourceRate, targetRate);
    var upper := Upper(j, inputFrames, sourceRate, targetRate);
    var f := Fraction(j, sourceRate, targetRate);
    TimeOf(j, sourceRate, targetRate);
    assert upper == if lower < inputFrames - 1 then lower + 1 else lower;
    hide Lower, Upper, Fraction, FrameAt, OutputFrames, Blend, Line;
    BlendOnLine(start, slope, lower, upper, f);
  }

  lemma BlendOnLine(start: real, slope: real, lower: nat, upper: nat, f: real)
    requires upper == lower + 1 || upper == lower
    ensures Blend(Line(start, slope, lower as real), Line(start, slope, upper as real), f)
            == Line(start, slope, if upper == lower then lower as real else lower as real + f)
  {
    if upper == lower + 1 {
      assert slope * upper as real == slope * lower as real + slope;
      assert slope * (lower as real + f) == slope * lower as real + slope * f;
    }
  }

  lemma TimeOf(j: nat, sourceRate: nat, targetRate: nat)
    requires targetRate > 0
    ensures (j * sourceRate) as real / targetRate as real
              == Lower(j, sourceRate, targetRate) as real + Fraction(j, sourceRate, targetRate)
  {
    TimeSplits(j * sourceRate, targetRate);
  }

  lemma TimeSplits(a: nat, b: nat)
    requires b > 0
    ensures a as real / b as real == (a / b) as real + (a % b) as real / b as real
  {
    var q, r := a / b, a % b;
    assert a == q * b + r;
    assert (q * b) as real == q as real * b as real;
    assert a as real == q as real * b as real + r as real;
    assert (q as real * b as real + r as real) / b as real == q as real + r as real / b as real;
  }

  /** The output keeps the duration to within half a source frame exactly under this condition. */
  predicate KeepsDuration(inputFrames: nat, sourceRate: nat, targetRate: nat) {
    || sourceRate == targetRate
    || inputFrames == 0
    || (inputFrames == 1 && 2 * Abs(sourceRate - targetRate) <= sourceRate)
    || (inputFrames >= 2 && inputFrames * targetRate + sourceRate / 2 >= sourceRate)
  }

  function Abs(x: int): int {
    if x < 0 then -x else x
  }

  /** `output_frames * source_rate` is within half of `source_rate` of `input_frames * target_rate`. */
  predicate DurationWithinHalf(inputFrames: nat, sourceRate: nat, targetRate: nat)
    requires sourceRate > 0
  {
    2 * Abs(OutputFrames(inputFrames, sourceRate, targetRate) * sourceRate - inputFrames * targetRate) <= sourceRate
  }

  lemma DurationKeptExactlyWhen(inputFrames: nat, sourceRate: nat, targetRate: nat)
    requires sourceRate > 0
    ensures DurationWithinHalf(inputFrames, sourceRate, targetRate) <==>
            KeepsDuration(inputFrames, sourceRate, targetRate)
  {
    if sourceRate == targetRate || inputFrames <= 1 {
      UnchangedFrames(inputFrames, sourceRate, targetRate);
    } else {
      RoundedFrames(inputFrames * targetRate, sourceRate);
      hide Abs, Max;
    }
  }

  lemma UnchangedFrames(inputFrames: nat, sourceRate: nat, targetRate: nat)
    requires sourceRate > 0 && (sourceRate == targetRate || inputFrames <= 1)
    ensures DurationWithinHalf(inputFrames, sourceRate, targetRate) <==>
            KeepsDuration(inputFrames, sourceRate, targetRate)
  {
    if sourceRate != targetRate && inputFrames == 1 {
      assert 1 * sourceRate == sourceRate && 1 * targetRate == targetRate;
    }
  }

  /** The rounded quotient, raised to one, is within half exactly when it did not need raising. */
  lemma RoundedFrames(x: nat, sourceRate: nat)
    requires sourceRate > 0
    ensures var frames := Max((x + sourceRate / 2) / sourceRate, 1);
            2 * Abs(frames * sourceRate - x) <= sourceRate <==> x + sourceRate / 2 >= sourceRate
  {
    var total := x + sourceRate / 2;
    var q := total / sourceRate;
    if total < sourceRate {
      QuotientBelow(total, sourceRate, 1);
    } else {
      QuotientPositive(total, sourceRate);
      assert total == q * sourceRate + total % sourceRate;
    }
  }

  lemma QuotientPositive(a: nat, b: nat)
    requires 0 < b <= a
    ensures a / b >= 1
  {
    assert a == (a / b) * b + a % b;
    assert (a / b) * b > 0;
  }

  /** A single input frame is returned as it is, so upsampling it loses its duration. */
  lemma SingleFrameLosesDuration()
    ensures !DurationWithinHalf(1, 8_000, 48_000)
  {
  }
}
