/** Audio synchronization: calibrated timestamps, conversion and resampling of one source. */
module AudioSync {
  import opened Common
  import opened MediaClock
  import Resampler

  const I64_MAX: int := 0x7FFF_FFFF_FFFF_FFFF
  const I64_MIN: int := -0x8000_0000_0000_0000

  /** The nearest 64-bit value, as saturating arithmetic gives it. */
  function SaturateI64(x: int): int {
    Max(I64_MIN, Min(x, I64_MAX))
  }

  function Plus(counter: nat, n: nat): nat {
    Min(counter + n, U64_MAX)
  }

  // ---------------------------------------------------------------------------
  // The synchronizer.

  datatype Config = Config(targetRate: nat, targetChannels: nat, gain: real, maxJumpMs: int)

  predicate ValidConfig(c: Config) {
    Resampler.ValidRate(c.targetRate) && 0 < c.targetChannels && c.maxJumpMs > 0
  }

  /** `samples` are the whole samples the payload holds. */
  datatype Frame = Frame(
      timeBase: TimeBase, ticks: int, sampleRate: nat, channels: nat, sampleCount: nat, samples: seq<real>)

  predicate FrameInRange(f: Frame) {
    ValidTimeBase(f.timeBase) && f.sampleRate <= U32_MAX && f.sampleCount <= U32_MAX
  }

  datatype OutputFrame = OutputFrame(pts: int, sampleCount: nat, samples: seq<real>)

  datatype SyncError =
    | InvalidFrame
    | PayloadTruncated(expected: nat, actual: nat)
    | FormatChanged
    | TimestampJump(discontinuity: Discontinuity)

  datatype Metrics = Metrics(
    inputChunks: nat,
    outputChunks: nat,
    inputSamples: nat,
    outputSamples: nat,
    resampledChunks: nat,
    channelConvertedChunks: nat,
    discontinuities: nat,
    lastDriftMs: int,
    maxAbsDriftMs: nat)

  datatype State = State(
    timeBase: Option<TimeBase>,
    timeline: Option<Timeline>,
    timelineOffset: int,
    lastOutput: Option<int>,
    expectedNext: Option<int>,
    metrics: Metrics)

  function Fresh(): State {
    State(None, None, 0, None, None, Metrics(0, 0, 0, 0, 0, 0, 0, 0, 0))
  }

  function ValidateFrame(f: Frame): (r: Option<SyncError>)
    ensures r.None? ==> f.sampleRate > 0
  {
    if f.sampleRate == 0 || f.channels == 0 || f.sampleCount == 0 then Some(InvalidFrame)
    else if |f.samples| < f.sampleCount * f.channels then
      Some(PayloadTruncated(f.sampleCount * f.channels, |f.samples|))
    else None
  }

  /** The state with a source time base: the frame's own, when this is the first frame. */
  function Calibrated(c: Config, s: State, f: Frame): State {
    if s.timeBase.Some? then s
    else s.(timeBase := Some(f.timeBase), timeline := Some(FreshTimeline(f.timeBase, c.maxJumpMs)))
  }

  function OutputCount(c: Config, f: Frame): nat
    requires f.sampleRate > 0
  {
    Min(Resampler.OutputFrames(f.sampleCount, f.sampleRate, c.targetRate), U32_MAX)
  }

  function Drifted(m: Metrics, drift: int): Metrics {
    m.(lastDriftMs := drift, maxAbsDriftMs := Max(m.maxAbsDriftMs, Resampler.Abs(drift)))
  }

  function Counted(c: Config, m: Metrics, f: Frame): Metrics
    requires f.sampleRate > 0
  {
    m.(inputChunks := Plus(m.inputChunks, 1),
       outputChunks := Plus(m.outputChunks, 1),
       inputSamples := Plus(m.inputSamples, f.sampleCount),
       outputSamples := Plus(m.outputSamples, OutputCount(c, f)),
       resampledChunks := if f.sampleRate != c.targetRate then Plus(m.resampledChunks, 1) else m.resampledChunks,
       channelConvertedChunks :=
         if f.channels != c.targetChannels then Plus(m.channelConvertedChunks, 1) else m.channelConvertedChunks)
  }

  predicate WellFormed(s: State) {
    && s.timeBase.Some? == s.timeline.Some?
    && (s.timeline.Some? ==> ValidTimeBase(s.timeline.value.timeBase))
  }

  /** What one frame does to the synchronizer, and the timestamp it is given. */
  function Processed(c: Config, s: State, f: Frame): (State, Result<int, SyncError>)
    requires ValidConfig(c) && FrameInRange(f) && WellFormed(s)
  {
    if ValidateFrame(f).Some? then (s, Err(ValidateFrame(f).value))
    else if s.timeBase.Some? && s.timeBase.value != f.timeBase then (s, Err(FormatChanged))
    else
      var s1 := Calibrated(c, s, f);
      match ToShared(s1.timeline.value, f.ticks)
      case Err(d) =>
        (s1.(metrics := s1.metrics.(discontinuities := Plus(s1.metrics.discontinuities, 1))), Err(TimestampJump(d)))
      case Ok((shared, timeline)) =>
        var pts := Clamped(SaturateI64(shared + s1.timelineOffset), s1.lastOutput);
        var metrics := if s1.expectedNext.Some?
                       then Drifted(s1.metrics, SaturateI64(pts - s1.expectedNext.value))
                       else s1.metrics;
        var durationMs := OutputCount(c, f) * 1_000 / c.targetRate;
        (s1.(timeline := Some(timeline),
             lastOutput := Some(pts),
             expectedNext := Some(SaturateI64(pts + Max(durationMs, 1))),
             metrics := Counted(c, metrics, f)),
         Ok(pts))
  }

  /** Never before the previous output. */
  function Clamped(pts: int, last: Option<int>): int {
    if last.Some? && pts < last.value then last.value else pts
  }

  function SourceReset(s: State): State {
    s.(timeBase := None,
       timeline := None,
       timelineOffset :=
         if s.expectedNext.Some? then s.expectedNext.value
         else if s.lastOutput.Some? then SaturateI64(s.lastOutput.value + 1)
         else 0)
  }

  function TimelineReset(s: State): State {
    Fresh().(metrics := s.metrics)
  }

  method ApplyGain(samples: seq<real>, gain: real) returns (output: seq<real>)
    ensures |output| == |samples| && forall i | 0 <= i < |samples| :: output[i] == samples[i] * gain
  {
    output := [];
    for i := 0 to |samples|
      invariant |output| == i && forall j | 0 <= j < i :: output[j] == samples[j] * gain
    {
      output := output + [samples[i] * gain];
    }
  }

  /** Every frame of the source is converted to the target channels. */
  ghost predicate Mixed(c: Config, f: Frame, converted: seq<real>)
    requires ValidConfig(c) && FrameInRange(f) && ValidateFrame(f).None?
  {
    && |converted| == f.sampleCount * c.targetChannels
    && forall i, k | 0 <= i < f.sampleCount && 0 <= k < c.targetChannels ::
         Resampler.FrameAt(converted, i, f.sampleCount, c.targetChannels)[k]
         == Resampler.ConvertedSample(
              Resampler.FrameAt(f.samples[..f.sampleCount * f.channels], i, f.sampleCount, f.channels),
              c.targetChannels, k)
  }

  /** The converted frames at the target rate: as they are, or each interpolated between two of them. */
  ghost predicate Resampled(c: Config, f: Frame, converted: seq<real>, resampled: seq<real>, frames: nat)
    requires ValidConfig(c) && FrameInRange(f) && ValidateFrame(f).None?
    requires |converted| == f.sampleCount * c.targetChannels
  {
    && frames == Resampler.OutputFrames(f.sampleCount, f.sampleRate, c.targetRate)
    && |resampled| == frames * c.targetChannels
    && if f.sampleRate == c.targetRate || f.sampleCount <= 1 then resampled == converted
       else forall i, k | 0 <= i < frames && 0 <= k < c.targetChannels ::
              Resampler.FrameAt(resampled, i, frames, c.targetChannels)[k]
              == Resampler.Interpolated(converted, f.sampleCount, c.targetChannels, f.sampleRate, c.targetRate, i, k)
  }

  predicate Amplified(samples: seq<real>, gain: real, output: seq<real>) {
    |output| == |samples| && forall i | 0 <= i < |output| :: output[i] == samples[i] * gain
  }

  /** Channel conversion, then resampling, then gain. */
  method ConvertSamples(c: Config, f: Frame)
    returns (output: seq<real>, outputFrames: nat, ghost converted: seq<real>, ghost resampled: seq<real>)
    requires ValidConfig(c) && FrameInRange(f) && ValidateFrame(f).None?
    ensures Mixed(c, f, converted)
    ensures Resampled(c, f, converted, resampled, outputFrames)
    ensures Amplified(resampled, c.gain, output)
  {
    var source := f.samples[..f.sampleCount * f.channels];
    var mixed := Resampler.ConvertChannels(source, f.sampleCount, f.channels, c.targetChannels);
    var result;
    result, outputFrames :=
      Resampler.ResampleLinear(mixed, f.sampleCount, c.targetChannels, f.sampleRate, c.targetRate);
    converted, resampled := mixed, result;
    output := ApplyGain(result, c.gain);
  }

  class AudioSynchronizer {
    const config: Config
    var timeBase: Option<TimeBase>
    var timeline: Option<Timeline>
    var timelineOffset: int
    var lastOutputPts: Option<int>
    var expectedNextPts: Option<int>
    var metrics: Metrics

    function Abs(): State
      reads this
    {
      State(timeBase, timeline, timelineOffset, lastOutputPts, expectedNextPts, metrics)
    }

    ghost predicate Valid()
      reads this
    {
      ValidConfig(config) && WellFormed(Abs())
    }

    constructor (config: Config)
      requires ValidConfig(config)
      ensures Valid() && Abs() == Fresh() && this.config == config
    {
      this.config := config;
      timeBase, timeline, timelineOffset := None, None, 0;
      lastOutputPts, expectedNextPts := None, None;
      metrics := Metrics(0, 0, 0, 0, 0, 0, 0, 0, 0);
    }

    method ResetTimeline()
      requires Valid()
      modifies this
      ensures Valid() && Abs() == TimelineReset(old(Abs()))
    {
      timeBase, timeline, timelineOffset := None, None, 0;
      lastOutputPts, expectedNextPts := None, None;
    }

    method ResetSource()
      requires Valid()
      modifies this
      ensures Valid() && Abs() == SourceReset(old(Abs()))
    {
      timeBase, timeline := None, None;
      timelineOffset := if expectedNextPts.Some? then expectedNextPts.value
                        else if lastOutputPts.Some? then SaturateI64(lastOutputPts.value + 1)
                        else 0;
    }

    /** Give the frame its place on the timeline, and its samples in the output format. */
    method Process(frame: Frame)
      returns (r: Result<OutputFrame, SyncError>, ghost converted: seq<real>, ghost resampled: seq<real>)
      requires Valid() && FrameInRange(frame)
      modifies this
      ensures Valid() && Abs() == Processed(config, old(Abs()), frame).0
      ensures r.Err? ==> Processed(config, old(Abs()), frame).1 == Err(r.error)
      ensures r.Ok? ==>
                && frame.sampleRate > 0
                && var n := Resampler.OutputFrames(frame.sampleCount, frame.sampleRate, config.targetRate);
                && Processed(config, old(Abs()), frame).1 == Ok(r.value.pts)
                && r.value.sampleCount == Min(n, U32_MAX)
                && |r.value.samples| == n * config.targetChannels
      ensures r.Ok? ==>
                && ValidateFrame(frame).None?
                && Mixed(config, frame, converted)
                && Resampled(config, frame, converted, resampled,
                             Resampler.OutputFrames(frame.sampleCount, frame.sampleRate, config.targetRate))
                && Amplified(resampled, config.gain, r.value.samples)
    {
      hide ToShared, ValidateFrame, SaturateI64, Resampler.OutputFrames, Mixed, Amplified;
      var invalid := ValidateFrame(frame);
      if invalid.Some? { return Err(invalid.value), [], []; }
      if timeBase.Some? {
        if timeBase.value != frame.timeBase { return Err(FormatChanged), [], []; }
      } else {
        timeBase := Some(frame.timeBase);
        timeline := Some(FreshTimeline(frame.timeBase, config.maxJumpMs));
      }
      var shared := ToShared(timeline.value, frame.ticks);
      if shared.Err? {
        metrics := metrics.(discontinuities := Plus(metrics.discontinuities, 1));
        return Err(TimestampJump(shared.error)), [], [];
      }
      timeline := Some(shared.value.1);
      var sharedPts := SaturateI64(shared.value.0 + timelineOffset);
      if lastOutputPts.Some? && sharedPts < lastOutputPts.value {
        sharedPts := lastOutputPts.value;
      }
      if expectedNextPts.Some? {
        metrics := Drifted(metrics, SaturateI64(sharedPts - expectedNextPts.value));
      }

      var output, outputFrames;
      output, outputFrames, converted, resampled := ConvertSamples(config, frame);
      if frame.channels != config.targetChannels {
        metrics := metrics.(channelConvertedChunks := Plus(metrics.channelConvertedChunks, 1));
      }
      if frame.sampleRate != config.targetRate {
        metrics := metrics.(resampledChunks := Plus(metrics.resampledChunks, 1));
      }

      var count := Min(outputFrames, U32_MAX);
      var durationMs := count * 1_000 / config.targetRate;
      lastOutputPts := Some(sharedPts);
      expectedNextPts := Some(SaturateI64(sharedPts + Max(durationMs, 1)));
      metrics := metrics.(
        inputChunks := Plus(metrics.inputChunks, 1),
        outputChunks := Plus(metrics.outputChunks, 1),
        inputSamples := Plus(metrics.inputSamples, frame.sampleCount),
        outputSamples := Plus(metrics.outputSamples, count));
      return Ok(OutputFrame(sharedPts, count, output)), converted, resampled;
    }
  }

  // ---------------------------------------------------------------------------
  // Whole sessions.

  datatype Op = Process(frame: Frame) | ResetSource | ResetTimeline

  /** A frame that was accepted: its stamp, and how many resets of timeline and source came before it. */
  datatype Emission = Emission(frame: Frame, pts: int, timeline: nat, source: nat)

  /** The state, what was emitted, the discontinuities reported, and the resets so far. */
  datatype Session = Session(state: State, log: seq<Emission>, jumps: nat, timelines: nat, sources: nat)

  predicate OpInRange(op: Op) {
    op.Process? ==> FrameInRange(op.frame)
  }

  function Step(c: Config, x: Session, op: Op): (y: Session)
    requires ValidConfig(c) && OpInRange(op) && WellFormed(x.state)
    ensures WellFormed(y.state)
  {
    match op
    case ResetSource => x.(state := SourceReset(x.state), sources := x.sources + 1)
    case ResetTimeline => x.(state := TimelineReset(x.state), timelines := x.timelines + 1, sources := x.sources + 1)
    case Process(f) =>
      var (s, r) := Processed(c, x.state, f);
      x.(state := s,
         log := if r.Ok? then x.log + [Emission(f, r.value, x.timelines, x.sources)] else x.log,
         jumps := if r.Err? && r.error.TimestampJump? then x.jumps + 1 else x.jumps)
  }

  function Run(c: Config, ops: seq<Op>): (x: Session)
    requires ValidConfig(c) && forall op | op in ops :: OpInRange(op)
    ensures WellFormed(x.state)
  {
    if ops == [] then Session(Fresh(), [], 0, 0, 0)
    else
      assert ops[|ops| - 1] in ops;
      Step(c, Run(c, ops[..|ops| - 1]), ops[|ops| - 1])
  }

  /** Where the frame ends: a millisecond after its stamp, or as many as its samples last at the target rate. */
  function EndOf(c: Config, e: Emission): int
    requires c.targetRate > 0 && e.frame.sampleRate > 0
  {
    Min(e.pts + Max(1, OutputCount(c, e.frame) * 1_000 / c.targetRate), 0x7FFF_FFFF_FFFF_FFFF)
  }

  predicate Ratable(c: Config, log: seq<Emission>) {
    && c.targetRate > 0
    && forall i | 0 <= i < |log| :: log[i].frame.sampleRate > 0 && ValidTimeBase(log[i].frame.timeBase)
  }

  /** The first frame of the source that frame `i` came from. */
  function FirstOfSource(log: seq<Emission>, i: nat): (r: nat)
    requires i < |log|
    ensures r <= i
  {
    if i == 0 || log[i - 1].source != log[i].source then i else FirstOfSource(log, i - 1)
  }

  /** Where the timeline stood when the source of frame `first` began. */
  function SourceStart(c: Config, log: seq<Emission>, first: nat): int
    requires first < |log| && Ratable(c, log)
  {
    if first == 0 || log[first - 1].timeline != log[first].timeline then 0 else EndOf(c, log[first - 1])
  }

  /**
   * The first frame of a source is where the source before it ended, and at zero on a new timeline;
   * a later one is as far past it as their ticks are apart in milliseconds, but never before the
   * frame that came last.
   */
  predicate Placed(c: Config, log: seq<Emission>, i: nat)
    requires i < |log| && Ratable(c, log)
  {
    var first := FirstOfSource(log, i);
    var start := SourceStart(c, log, first);
    if i == first then log[i].pts == start
    else
      var base := log[i].frame.timeBase;
      && base == log[first].frame.timeBase
      && log[i].pts == Max(
           log[i - 1].pts,
           SaturateI64(Milliseconds(log[i].frame.ticks, base) - Milliseconds(log[first].frame.ticks, base) + start))
  }

  /** How far frame `i` is from where the one before it ended, on one timeline. */
  function DriftAt(c: Config, log: seq<Emission>, i: nat): Option<int>
    requires i < |log| && Ratable(c, log)
  {
    if i == 0 || log[i - 1].timeline != log[i].timeline then None
    else Some(SaturateI64(log[i].pts - EndOf(c, log[i - 1])))
  }

  function LastDrift(c: Config, log: seq<Emission>): int
    requires Ratable(c, log)
  {
    if log == [] then 0
    else if DriftAt(c, log, |log| - 1).Some? then DriftAt(c, log, |log| - 1).value
    else LastDrift(c, log[..|log| - 1])
  }

  function LargestDrift(c: Config, log: seq<Emission>): nat
    requires Ratable(c, log)
  {
    if log == [] then 0 else
    var rest := LargestDrift(c, log[..|log| - 1]);
    var drift := DriftAt(c, log, |log| - 1);
    if drift.Some? && drift.value > rest then drift.value
    else if drift.Some? && -drift.value > rest then -drift.value
    else rest
  }

  datatype Kind = InputSamples | OutputSamples | Resamplings | Conversions

  /** What one frame adds to a counter. */
  function Weight(c: Config, f: Frame, kind: Kind): nat
    requires f.sampleRate > 0
  {
    match kind
    case InputSamples => f.sampleCount
    case OutputSamples => OutputCount(c, f)
    case Resamplings => if f.sampleRate == c.targetRate then 0 else 1
    case Conversions => if f.channels == c.targetChannels then 0 else 1
  }

  function Total(c: Config, log: seq<Emission>, kind: Kind): nat
    requires Ratable(c, log)
  {
    if log == [] then 0
    else Total(c, log[..|log| - 1], kind) + Weight(c, log[|log| - 1].frame, kind)
  }

  /** The counters are the saturated totals of what was emitted. */
  predicate CountersMatch(c: Config, m: Metrics, log: seq<Emission>, jumps: nat)
    requires Ratable(c, log)
  {
    && m.inputChunks == m.outputChunks == Saturated(|log|)
    && m.inputSamples == Saturated(Total(c, log, InputSamples))
    && m.outputSamples == Saturated(Total(c, log, OutputSamples))
    && m.resampledChunks == Saturated(Total(c, log, Resamplings))
    && m.channelConvertedChunks == Saturated(Total(c, log, Conversions))
    && m.discontinuities == Saturated(jumps)
    && m.lastDriftMs == LastDrift(c, log)
    && m.maxAbsDriftMs == LargestDrift(c, log)
  }

  /** The frame emitted last on the present timeline. */
  predicate Continues(x: Session) {
    x.log != [] && x.log[|x.log| - 1].timeline == x.timelines
  }

  /** Where the state stands in what was emitted. */
  predicate InPlace(c: Config, x: Session)
    requires Ratable(c, x.log)
  {
    var s, n := x.state, |x.log|;
    && WellFormed(s)
    && (forall i | 0 <= i < n :: x.log[i].timeline <= x.timelines && x.log[i].source <= x.sources)
    && (if Continues(x) then s.lastOutput == Some(x.log[n - 1].pts) && s.expectedNext == Some(EndOf(c, x.log[n - 1]))
        else s.lastOutput.None? && s.expectedNext.None?)
    && (if s.timeline.None? then
          && (n > 0 ==> x.log[n - 1].source < x.sources)
          && s.timelineOffset == if Continues(x) then EndOf(c, x.log[n - 1]) else 0
        else
          && Continues(x) && x.log[n - 1].source == x.sources
          && s.timeline.value.maxJump == c.maxJumpMs
          && var first := FirstOfSource(x.log, n - 1);
             && s.timeline.value.accepted == n - first
             && x.log[n - 1].frame.timeBase == x.log[first].frame.timeBase
             && s.timeline.value.last
                == Milliseconds(x.log[n - 1].frame.ticks, x.log[n - 1].frame.timeBase) - s.timeline.value.offset
             && s.timeBase == Some(x.log[first].frame.timeBase)
             && s.timeline.value.timeBase == x.log[first].frame.timeBase
             && s.timeline.value.offset == Milliseconds(x.log[first].frame.ticks, x.log[first].frame.timeBase)
             && s.timelineOffset == SourceStart(c, x.log, first))
  }

  /** Every frame is in its place, by stamps and samples alone. */
  predicate AllPlaced(c: Config, log: seq<Emission>)
    requires Ratable(c, log)
  {
    forall i | 0 <= i < |log| :: I64_MIN <= log[i].pts <= I64_MAX && Placed(c, log, i)
  }

  /** What every session keeps. */
  predicate Invariant(c: Config, x: Session) {
    && Ratable(c, x.log)
    && InPlace(c, x)
    && AllPlaced(c, x.log)
    && CountersMatch(c, x.state.metrics, x.log, x.jumps)
  }

  lemma {:induction false} FirstIsOfSameSource(log: seq<Emission>, i: nat)
    requires i < |log|
    ensures log[FirstOfSource(log, i)].source == log[i].source
  {
    if i > 0 && log[i - 1].source == log[i].source { FirstIsOfSameSource(log, i - 1); }
  }

  /** One more frame changes nothing about the frames before it. */
  lemma {:induction false} FirstKept(log: seq<Emission>, e: Emission, i: nat)
    requires i < |log|
    ensures FirstOfSource(log + [e], i) == FirstOfSource(log, i)
  {
    if i > 0 && log[i - 1].source == log[i].source { FirstKept(log, e, i - 1); }
  }

  lemma PlacesKept(c: Config, log: seq<Emission>, e: Emission)
    requires Ratable(c, log) && Ratable(c, log + [e])
    ensures forall i | 0 <= i < |log| :: Placed(c, log + [e], i) == Placed(c, log, i)
    ensures forall i | 0 <= i < |log| :: SourceStart(c, log + [e], i) == SourceStart(c, log, i)
  {
    hide SaturateI64, Milliseconds, EndOf;
    forall i | 0 <= i < |log| ensures Placed(c, log + [e], i) == Placed(c, log, i) {
      FirstKept(log, e, i);
    }
  }

  lemma OneMoreEmission(c: Config, log: seq<Emission>, e: Emission)
    requires Ratable(c, log) && Ratable(c, log + [e]) && e.frame.sampleRate > 0
    ensures forall kind: Kind :: Total(c, log + [e], kind) == Total(c, log, kind) + Weight(c, e.frame, kind)
    ensures var drift := DriftAt(c, log + [e], |log|);
            && LastDrift(c, log + [e]) == (if drift.Some? then drift.value else LastDrift(c, log))
            && LargestDrift(c, log + [e]) ==
               if drift.Some? then Max(LargestDrift(c, log), Resampler.Abs(drift.value)) else LargestDrift(c, log)
  {
    var more := log + [e];
    assert more[..|more| - 1] == log;
  }

  lemma ResetKeepsInvariant(c: Config, x: Session, op: Op)
    requires ValidConfig(c) && Invariant(c, x) && !op.Process?
    ensures Invariant(c, Step(c, x, op))
  {
    hide EndOf, AllPlaced, CountersMatch, FirstOfSource, SourceStart, Milliseconds;
  }

  lemma RefusalKeepsInvariant(c: Config, x: Session, f: Frame)
    requires ValidConfig(c) && FrameInRange(f) && Invariant(c, x) && Processed(c, x.state, f).1.Err?
    ensures Invariant(c, Step(c, x, Process(f)))
  {
    hide EndOf, AllPlaced, FirstOfSource, SourceStart, Milliseconds, Total, LastDrift, LargestDrift;
  }

  /** What accepting a frame does to the state. */
  lemma Accepted(c: Config, s: State, f: Frame)
    requires ValidConfig(c) && FrameInRange(f) && WellFormed(s) && Processed(c, s, f).1.Ok?
    requires s.timeline.Some? ==> s.timeline.value.accepted > 0
    ensures f.sampleRate > 0 && (s.timeBase.Some? ==> s.timeBase == Some(f.timeBase))
    ensures var (t, r) := Processed(c, s, f);
            var ms := Milliseconds(f.ticks, f.timeBase);
            && t.timeBase == Some(f.timeBase) && t.timelineOffset == s.timelineOffset
            && t.timeline.Some?
            && t.timeline.value.accepted == (if s.timeline.None? then 1 else s.timeline.value.accepted + 1)
            && t.timeline.value.maxJump == (if s.timeline.None? then c.maxJumpMs else s.timeline.value.maxJump)
            && t.lastOutput == Some(r.value)
            && t.expectedNext == Some(SaturateI64(r.value + Max(OutputCount(c, f) * 1_000 / c.targetRate, 1)))
            && t.metrics == Counted(c, if s.expectedNext.Some?
                                       then Drifted(s.metrics, SaturateI64(r.value - s.expectedNext.value))
                                       else s.metrics, f)
            && (if s.timeline.None? then
                  && t.timeline.value.timeBase == f.timeBase && t.timeline.value.offset == ms
                  && t.timeline.value.last == 0
                  && r.value == Clamped(SaturateI64(s.timelineOffset), s.lastOutput)
                else
                  && t.timeline.value.timeBase == s.timeline.value.timeBase
                  && t.timeline.value.offset == s.timeline.value.offset
                  && (s.timeline.value.timeBase == f.timeBase ==>
                        t.timeline.value.last == ms - s.timeline.value.offset)
                  && (s.timeline.value.timeBase == f.timeBase ==>
                        r.value == Clamped(SaturateI64(ms - s.timeline.value.offset + s.timelineOffset), s.lastOutput)))
  {
    hide Counted, Drifted, SaturateI64, Clamped, OutputCount, Milliseconds;
  }

  lemma AllPlacedMore(c: Config, log: seq<Emission>, e: Emission)
    requires Ratable(c, log) && AllPlaced(c, log) && Ratable(c, log + [e])
    requires I64_MIN <= e.pts <= I64_MAX && Placed(c, log + [e], |log|)
    ensures AllPlaced(c, log + [e])
  {
    hide Placed, Ratable;
    var more := log + [e];
    forall i | 0 <= i < |more| ensures I64_MIN <= more[i].pts <= I64_MAX && Placed(c, more, i) {
      if i < |log| {
        OldIsPlaced(c, log, e, i);
      } else {
        assert i == |log|;
      }
    }
  }

  lemma OldIsPlaced(c: Config, log: seq<Emission>, e: Emission, i: nat)
    requires Ratable(c, log) && AllPlaced(c, log) && Ratable(c, log + [e]) && i < |log|
    ensures I64_MIN <= (log + [e])[i].pts <= I64_MAX && Placed(c, log + [e], i)
  {
    PlacesKept(c, log, e);
    hide Placed;
    assert Placed(c, log, i);
  }

  /** The frame that was accepted, and its place in the history. */
  lemma NewEmission(c: Config, x: Session, f: Frame) returns (e: Emission)
    requires ValidConfig(c) && FrameInRange(f) && Invariant(c, x) && Processed(c, x.state, f).1.Ok?
    ensures var y := Step(c, x, Process(f));
            && e == Emission(f, Processed(c, x.state, f).1.value, x.timelines, x.sources)
            && y == x.(state := Processed(c, x.state, f).0, log := x.log + [e])
            && f.sampleRate > 0 && Ratable(c, y.log)
  {
    hide InPlace, AllPlaced, CountersMatch;
    assert WellFormed(x.state) by { InPlaceIsWellFormed(c, x); }
    hide Processed;
    e := Emission(f, Processed(c, x.state, f).1.value, x.timelines, x.sources);
    assert f.sampleRate > 0 by { AcceptedIsRatable(c, x.state, f); }
  }

  lemma AcceptedIsRatable(c: Config, s: State, f: Frame)
    requires ValidConfig(c) && FrameInRange(f) && WellFormed(s) && Processed(c, s, f).1.Ok?
    ensures f.sampleRate > 0
  {
  }

  /** An accepted frame goes to its place. */
  lemma EmissionIsPlaced(c: Config, x: Session, f: Frame)
    requires ValidConfig(c) && FrameInRange(f) && Invariant(c, x) && Processed(c, x.state, f).1.Ok?
    ensures var y := Step(c, x, Process(f));
            Ratable(c, y.log) && InPlace(c, y) && AllPlaced(c, y.log)
  {
    var e := NewEmission(c, x, f);
    assert Ratable(c, x.log) && InPlace(c, x) && AllPlaced(c, x.log);
    assert x.state.timeline.Some? ==> x.state.timeline.value.accepted > 0;
    Accepted(c, x.state, f);
    hide *;
    var y := Step(c, x, Process(f));
    if x.state.timeline.None? {
      FirstFrameInPlace(c, x, y, e);
    } else {
      LaterFrameInPlace(c, x, y, e);
    }
    AllPlacedMore(c, x.log, e);
  }

  /** One frame moved the session from `x` to `y`, whatever stamp it got. */
  predicate Appends(c: Config, x: Session, y: Session, e: Emission)
    requires ValidConfig(c)
  {
    && y == x.(state := y.state, log := x.log + [e])
    && e.timeline == x.timelines && e.source == x.sources
    && e.frame.sampleRate > 0 && ValidTimeBase(e.frame.timeBase)
    && y.state.timeBase == Some(e.frame.timeBase) && y.state.timelineOffset == x.state.timelineOffset
    && y.state.timeline.Some?
    && (x.state.timeline.None? ==>
          y.state.timeline.value.accepted == 1 && y.state.timeline.value.maxJump == c.maxJumpMs)
    && (x.state.timeline.Some? ==>
          && y.state.timeline.value.accepted == x.state.timeline.value.accepted + 1
          && y.state.timeline.value.maxJump == x.state.timeline.value.maxJump)
    && y.state.lastOutput == Some(e.pts)
    && y.state.expectedNext == Some(SaturateI64(e.pts + Max(OutputCount(c, e.frame) * 1_000 / c.targetRate, 1)))
  }

  lemma FirstFrameInPlace(c: Config, x: Session, y: Session, e: Emission)
    requires ValidConfig(c) && Ratable(c, x.log) && InPlace(c, x) && AllPlaced(c, x.log)
    requires Appends(c, x, y, e) && x.state.timeline.None?
    requires y.state.timeline.value.timeBase == e.frame.timeBase
    requires y.state.timeline.value.offset == Milliseconds(e.frame.ticks, e.frame.timeBase)
    requires y.state.timeline.value.last == 0
    requires e.pts == Clamped(SaturateI64(x.state.timelineOffset), x.state.lastOutput)
    ensures Ratable(c, y.log) && InPlace(c, y)
    ensures I64_MIN <= e.pts <= I64_MAX && Placed(c, y.log, |x.log|)
  {
    hide Milliseconds, OutputCount, Placed;
    var n := |x.log|;
    assert Ratable(c, x.log + [e]);
    if n > 0 { assert I64_MIN <= x.log[n - 1].pts <= I64_MAX; }
    assert FirstOfSource(y.log, n) == n;
    FirstIsPlaced(c, y.log, n);
  }

  lemma FirstIsPlaced(c: Config, log: seq<Emission>, i: nat)
    requires i < |log| && Ratable(c, log) && FirstOfSource(log, i) == i && log[i].pts == SourceStart(c, log, i)
    ensures Placed(c, log, i)
  {
  }

  lemma LaterIsPlaced(c: Config, log: seq<Emission>, i: nat)
    requires 0 < i < |log| && Ratable(c, log) && FirstOfSource(log, i) < i
    requires var first, base := FirstOfSource(log, i), log[i].frame.timeBase;
             && base == log[first].frame.timeBase
             && log[i].pts == Max(
                  log[i - 1].pts,
                  SaturateI64(Milliseconds(log[i].frame.ticks, base) - Milliseconds(log[first].frame.ticks, base)
                              + SourceStart(c, log, first)))
    ensures Placed(c, log, i)
  {
  }

  lemma LaterFrameInPlace(c: Config, x: Session, y: Session, e: Emission)
    requires ValidConfig(c) && Ratable(c, x.log) && InPlace(c, x) && AllPlaced(c, x.log)
    requires Appends(c, x, y, e) && x.state.timeline.Some? && x.state.timeBase == Some(e.frame.timeBase)
    requires y.state.timeline.value.timeBase == x.state.timeline.value.timeBase
    requires y.state.timeline.value.offset == x.state.timeline.value.offset
    requires var ms := Milliseconds(e.frame.ticks, e.frame.timeBase);
             x.state.timeline.value.timeBase == e.frame.timeBase ==>
               && y.state.timeline.value.last == ms - x.state.timeline.value.offset
               && e.pts == Clamped(SaturateI64(ms - x.state.timeline.value.offset + x.state.timelineOffset),
                                x.state.lastOutput)
    ensures Ratable(c, y.log) && InPlace(c, y)
    ensures I64_MIN <= e.pts <= I64_MAX && Placed(c, y.log, |x.log|)
  {
    hide Milliseconds, OutputCount, Placed, EndOf, SourceStart;
    var n := |x.log|;
    assert Ratable(c, x.log + [e]);
    assert I64_MIN <= x.log[n - 1].pts <= I64_MAX;
    FirstKept(x.log, e, n - 1);
    var first := FirstOfSource(x.log, n - 1);
    assert FirstOfSource(y.log, n) == first;
    PlacesKept(c, x.log, e);
    assert SourceStart(c, y.log, first) == SourceStart(c, x.log, first);
    assert y.log[first] == x.log[first];
    EndIsExpected(c, e);
    LaterIsPlaced(c, y.log, n);
  }

  lemma EndIsExpected(c: Config, e: Emission)
    requires c.targetRate > 0 && e.frame.sampleRate > 0
    ensures e.pts >= I64_MIN ==>
              EndOf(c, e) == SaturateI64(e.pts + Max(OutputCount(c, e.frame) * 1_000 / c.targetRate, 1))
  {
    hide OutputCount;
  }

  lemma EmissionIsCounted(c: Config, x: Session, f: Frame)
    requires ValidConfig(c) && FrameInRange(f) && Invariant(c, x) && Processed(c, x.state, f).1.Ok?
    ensures var y := Step(c, x, Process(f));
            Ratable(c, y.log) && CountersMatch(c, y.state.metrics, y.log, y.jumps)
  {
    var e := NewEmission(c, x, f);
    assert Ratable(c, x.log) && InPlace(c, x) && CountersMatch(c, x.state.metrics, x.log, x.jumps);
    assert x.state.timeline.Some? ==> x.state.timeline.value.accepted > 0;
    Accepted(c, x.state, f);
    hide *;
    OneMoreEmission(c, x.log, e);
    DriftIsExpected(c, x, e);
    var y := Step(c, x, Process(f));
    CountedMatches(c, x, y.state.metrics, e);
  }

  /** The drift of the next frame, measured from what the state expected. */
  lemma DriftIsExpected(c: Config, x: Session, e: Emission)
    requires Ratable(c, x.log) && InPlace(c, x) && Ratable(c, x.log + [e]) && e.timeline == x.timelines
    ensures DriftAt(c, x.log + [e], |x.log|) ==
            if x.state.expectedNext.Some? then Some(SaturateI64(e.pts - x.state.expectedNext.value)) else None
  {
    hide EndOf, SourceStart, Milliseconds, FirstOfSource;
  }

  lemma CountedMatches(c: Config, x: Session, m: Metrics, e: Emission)
    requires Ratable(c, x.log) && Ratable(c, x.log + [e]) && e.frame.sampleRate > 0
    requires CountersMatch(c, x.state.metrics, x.log, x.jumps)
    requires forall kind: Kind :: Total(c, x.log + [e], kind) == Total(c, x.log, kind) + Weight(c, e.frame, kind)
    requires var drift := DriftAt(c, x.log + [e], |x.log|);
             && LastDrift(c, x.log + [e]) == (if drift.Some? then drift.value else LastDrift(c, x.log))
             && LargestDrift(c, x.log + [e]) ==
                (if drift.Some? then Max(LargestDrift(c, x.log), Resampler.Abs(drift.value))
                 else LargestDrift(c, x.log))
             && m == Counted(c, if drift.Some? then Drifted(x.state.metrics, drift.value) else x.state.metrics, e.frame)
    ensures CountersMatch(c, m, x.log + [e], x.jumps)
  {
    hide Total, LastDrift, LargestDrift, DriftAt, OutputCount;
  }

  lemma InPlaceIsWellFormed(c: Config, x: Session)
    requires Ratable(c, x.log) && InPlace(c, x)
    ensures WellFormed(x.state)
  {
  }

  lemma StepKeepsInvariant(c: Config, x: Session, op: Op)
    requires ValidConfig(c) && OpInRange(op) && Invariant(c, x)
    ensures Invariant(c, Step(c, x, op))
  {
    hide Step, Processed, AllPlaced, CountersMatch, InPlace;
    assert WellFormed(x.state) by { InPlaceIsWellFormed(c, x); }
    match op
    case Process(f) =>
      if Processed(c, x.state, f).1.Ok? {
        EmissionIsPlaced(c, x, f);
        EmissionIsCounted(c, x, f);
      } else {
        RefusalKeepsInvariant(c, x, f);
      }
    case _ => ResetKeepsInvariant(c, x, op);
  }

  /**
   * Over every session, by stamps, ticks and returned samples alone: every frame is in its place,
   * and the counters and drifts are those of the frames accepted.
   */
  lemma {:induction false} RunKeepsInvariant(c: Config, ops: seq<Op>)
    requires ValidConfig(c) && forall op | op in ops :: OpInRange(op)
    ensures Invariant(c, Run(c, ops))
  {
    if ops != [] {
      RunKeepsInvariant(c, ops[..|ops| - 1]);
      assert ops[|ops| - 1] in ops;
      StepKeepsInvariant(c, Run(c, ops[..|ops| - 1]), ops[|ops| - 1]);
    }
  }

  /** Stamps of one timeline never go back, across source restarts too. */
  predicate NeverBack(log: seq<Emission>, timelines: nat) {
    && (forall i, j | 0 <= i < j < |log| ::
          log[i].timeline <= log[j].timeline && (log[i].timeline == log[j].timeline ==> log[i].pts <= log[j].pts))
    && (forall i | 0 <= i < |log| :: log[i].timeline <= timelines)
  }

  lemma NeverBackMore(log: seq<Emission>, e: Emission, timelines: nat)
    requires NeverBack(log, timelines) && e.timeline == timelines
    requires log != [] && log[|log| - 1].timeline == timelines ==> log[|log| - 1].pts <= e.pts
    ensures NeverBack(log + [e], timelines)
  {
  }

  lemma {:induction false} TimestampsNeverGoBack(c: Config, ops: seq<Op>)
    requires ValidConfig(c) && forall op | op in ops :: OpInRange(op)
    ensures NeverBack(Run(c, ops).log, Run(c, ops).timelines)
  {
    if ops != [] {
      var before, op := ops[..|ops| - 1], ops[|ops| - 1];
      assert op in ops;
      TimestampsNeverGoBack(c, before);
      RunKeepsInvariant(c, before);
      RunKeepsInvariant(c, ops);
      StepNeverGoesBack(c, Run(c, before), op);
    }
  }

  lemma StepNeverGoesBack(c: Config, x: Session, op: Op)
    requires ValidConfig(c) && OpInRange(op) && WellFormed(x.state)
    requires Invariant(c, x) && Invariant(c, Step(c, x, op)) && NeverBack(x.log, x.timelines)
    ensures NeverBack(Step(c, x, op).log, Step(c, x, op).timelines)
  {
    hide NeverBack, Invariant, Processed;
    match op
    case Process(f) =>
      if Processed(c, x.state, f).1.Ok? {
        var e := NewEmission(c, x, f);
        hide *;
        assert Ratable(c, x.log + [e]) && AllPlaced(c, x.log + [e]) by { InvariantPlaces(c, Step(c, x, op)); }
        if x.log != [] { NextIsNotBefore(c, x.log + [e], |x.log|); }
        NeverBackMore(x.log, e, x.timelines);
      }
    case _ => StillNeverBack(x.log, x.timelines);
  }

  lemma InvariantPlaces(c: Config, x: Session)
    requires Invariant(c, x)
    ensures Ratable(c, x.log) && AllPlaced(c, x.log)
  {
  }

  lemma StillNeverBack(log: seq<Emission>, timelines: nat)
    requires NeverBack(log, timelines)
    ensures NeverBack(log, timelines + 1)
  {
  }

  lemma NextIsNotBefore(c: Config, log: seq<Emission>, i: nat)
    requires Ratable(c, log) && AllPlaced(c, log) && 0 < i < |log|
    ensures log[i - 1].timeline == log[i].timeline ==> log[i - 1].pts <= log[i].pts
  {
    hide OutputCount, Milliseconds;
    assert Placed(c, log, i) && I64_MIN <= log[i - 1].pts <= I64_MAX;
  }

  /** The frame that the present source emitted last. */
  function LastOfSource(x: Session): Option<Emission> {
    if x.log != [] && x.log[|x.log| - 1].source == x.sources then Some(x.log[|x.log| - 1]) else None
  }

  /**
   * Over every session: a frame is accepted if and only if it has a rate, channels, frames and all
   * their samples, the time base of its source, and from the third frame of a source on is no
   * further from the one before, either way, than the configured jump. A refused one leaves the
   * timeline as it was.
   */
  lemma AcceptedExactlyWhen(c: Config, ops: seq<Op>, f: Frame)
    requires ValidConfig(c) && FrameInRange(f) && forall op | op in ops :: OpInRange(op)
    ensures var x := Run(c, ops);
            var (s, r) := Processed(c, x.state, f);
            var last := LastOfSource(x);
            && (r.Ok? <==>
                  && f.sampleRate > 0 && f.channels > 0 && f.sampleCount > 0
                  && |f.samples| >= f.sampleCount * f.channels
                  && (last.Some? ==>
                        && f.timeBase == last.value.frame.timeBase
                        && var jump := Milliseconds(f.ticks, f.timeBase)
                                       - Milliseconds(last.value.frame.ticks, f.timeBase);
                           FirstOfSource(x.log, |x.log| - 1) == |x.log| - 1 || -c.maxJumpMs <= jump <= c.maxJumpMs))
            && (r == Err(FormatChanged) ==> last.Some? && f.timeBase != last.value.frame.timeBase)
            && (r == Err(InvalidFrame) <==> f.sampleRate == 0 || f.channels == 0 || f.sampleCount == 0)
            && (forall n, m :: r == Err(PayloadTruncated(n, m)) ==>
                  n == f.sampleCount * f.channels && m == |f.samples| < n)
            && (r.Err? ==> s.(metrics := x.state.metrics) == x.state)
  {
    RunKeepsInvariant(c, ops);
    var x := Run(c, ops);
    assert WellFormed(x.state);
    hide *;
    ProcessedExactlyWhen(c, x.state, f);
    StandsAt(c, x);
    var last := LastOfSource(x);
    if last.Some? && f.timeBase == last.value.frame.timeBase { SharedExactlyWhen(x.state.timeline.value, f.ticks); }
  }

  /** The clock accepts a stamp unless, from the third on, it is too far from the last. */
  lemma SharedExactlyWhen(t: Timeline, ticks: int)
    requires ValidTimeBase(t.timeBase)
    ensures var jump := Milliseconds(ticks, t.timeBase) - t.offset - t.last;
            ToShared(t, ticks).Ok? <==> t.accepted < 2 || -t.maxJump <= jump <= t.maxJump
  {
    hide Milliseconds;
  }

  /** When the state accepts a frame, and what a refusal leaves. */
  lemma ProcessedExactlyWhen(c: Config, s: State, f: Frame)
    requires ValidConfig(c) && FrameInRange(f) && WellFormed(s)
    ensures var (t, r) := Processed(c, s, f);
            && (r.Ok? <==>
                  && f.sampleRate > 0 && f.channels > 0 && f.sampleCount > 0
                  && |f.samples| >= f.sampleCount * f.channels
                  && (s.timeline.Some? ==>
                        && s.timeBase == Some(f.timeBase)
                        && ToShared(s.timeline.value, f.ticks).Ok?))
            && (r == Err(FormatChanged) ==> s.timeline.Some? && s.timeBase != Some(f.timeBase))
            && (r == Err(InvalidFrame) <==> f.sampleRate == 0 || f.channels == 0 || f.sampleCount == 0)
            && (forall n, m :: r == Err(PayloadTruncated(n, m)) ==>
                  n == f.sampleCount * f.channels && m == |f.samples| < n)
    ensures var (t, r) := Processed(c, s, f);
            r.Err? ==> t.(metrics := s.metrics) == s
  {
    hide OutputCount, Counted, Drifted, Clamped, SaturateI64, Milliseconds;
  }

  /** Where the state stands, by the frame its source emitted last. */
  lemma StandsAt(c: Config, x: Session)
    requires ValidConfig(c) && Invariant(c, x)
    ensures var last, t := LastOfSource(x), x.state.timeline;
            && last.Some? == t.Some?
            && (last.Some? ==>
                  && ValidTimeBase(last.value.frame.timeBase)
                  && x.state.timeBase == Some(last.value.frame.timeBase)
                  && t.value.timeBase == last.value.frame.timeBase
                  && t.value.maxJump == c.maxJumpMs
                  && t.value.accepted == |x.log| - FirstOfSource(x.log, |x.log| - 1) >= 1
                  && t.value.last + t.value.offset
                     == Milliseconds(last.value.frame.ticks, last.value.frame.timeBase))
  {
    hide AllPlaced, CountersMatch, Milliseconds, EndOf, SourceStart;
  }

  /**
   * After a source restart the next frame is accepted whatever its ticks, exactly where the last one
   * ended: its stamp and the milliseconds of the samples returned for it, at least one.
   */
  lemma RestartIsContiguous(c: Config, ops: seq<Op>, f: Frame)
    requires ValidConfig(c) && FrameInRange(f) && forall op | op in ops :: OpInRange(op)
    requires ValidateFrame(f).None?
    ensures var x := Run(c, ops);
            var (after, r) := Processed(c, SourceReset(x.state), f);
            && r.Ok?
            && (Continues(x) ==>
                  var last := x.log[|x.log| - 1];
                  && last.frame.sampleRate > 0
                  && r.value == Min(last.pts + Max(1, OutputCount(c, last.frame) * 1_000 / c.targetRate),
                                    0x7FFF_FFFF_FFFF_FFFF)
                  && after.metrics.lastDriftMs == 0)
            && (!Continues(x) ==> r.value == 0)
  {
    RunKeepsInvariant(c, ops);
    var x := Run(c, ops);
    StandsAfterRestart(c, x);
    AcceptedAfterRestart(c, SourceReset(x.state), f);
    hide Run, Invariant, SourceReset, Processed, OutputCount, ValidateFrame, WellFormed;
  }

  lemma StandsAfterRestart(c: Config, x: Session)
    requires ValidConfig(c) && Invariant(c, x)
    ensures var s := SourceReset(x.state);
            && WellFormed(s) && s.timeline.None?
            && (if Continues(x) then
                  var last := x.log[|x.log| - 1];
                  && last.frame.sampleRate > 0 && I64_MIN <= last.pts <= s.timelineOffset <= I64_MAX
                  && s.timelineOffset == EndOf(c, last) && s.lastOutput == Some(last.pts)
                  && s.expectedNext == Some(s.timelineOffset)
                else s.timelineOffset == 0 && s.lastOutput.None? && s.expectedNext.None?)
  {
    if x.log != [] { assert I64_MIN <= x.log[|x.log| - 1].pts <= I64_MAX; }
    hide CountersMatch, Milliseconds, Placed, SourceStart, OutputCount, FirstOfSource;
  }

  lemma AcceptedAfterRestart(c: Config, s: State, f: Frame)
    requires ValidConfig(c) && FrameInRange(f) && WellFormed(s) && s.timeline.None? && ValidateFrame(f).None?
    ensures var (t, r) := Processed(c, s, f);
            && r == Ok(Clamped(SaturateI64(s.timelineOffset), s.lastOutput))
            && (s.expectedNext.Some? ==> t.metrics.lastDriftMs == SaturateI64(r.value - s.expectedNext.value))
  {
    hide OutputCount, SaturateI64, Clamped, Milliseconds;
  }

  // ---------------------------------------------------------------------------
  // A device restart.

  const STEREO_48K: Config := Config(48_000, 2, 1.0, 60_000)

  function Packet(ticks: int, samples: seq<real>): Frame {
    Frame(TimeBase(1, 48_000), ticks, 48_000, 2, 960, samples)
  }

  lemma {:induction false} OneMoreOp(c: Config, ops: seq<Op>, op: Op)
    requires ValidConfig(c) && OpInRange(op) && forall o | o in ops :: OpInRange(o)
    ensures Run(c, ops + [op]) == Step(c, Run(c, ops), op)
  {
    assert (ops + [op])[..|ops + [op]| - 1] == ops;
  }

  lemma PacketMilliseconds(ticks: int)
    requires ticks == 0 || ticks == 960
    ensures Milliseconds(ticks, TimeBase(1, 48_000)) == if ticks == 0 then 0 else 20
  {
  }

  /** One frame of twenty milliseconds. */
  lemma PacketStep(s: State, ticks: int, samples: seq<real>, at: int)
    requires |samples| == 1920 && (ticks == 0 || ticks == 960) && WellFormed(s)
    requires s.timeBase == if s.timeline.Some? then Some(TimeBase(1, 48_000)) else None
    requires s.timeline.Some? ==>
               && s.timeline.value.timeBase == TimeBase(1, 48_000) && s.timeline.value.accepted == 1
               && s.timeline.value.offset == 0 && s.timelineOffset == 0 && at == 20 && ticks == 960
    requires s.timeline.None? ==> s.timelineOffset == at
    requires || (s.expectedNext == Some(at) && s.lastOutput == Some(at - 20))
             || (s.expectedNext.None? && s.lastOutput.None?)
    requires 0 <= at <= 40
    ensures var (t, r) := Processed(STEREO_48K, s, Packet(ticks, samples));
            && r == Ok(at) && t.expectedNext == Some(at + 20) && t.lastOutput == Some(at)
            && t.timelineOffset == s.timelineOffset && t.timeBase == Some(TimeBase(1, 48_000))
            && (s.expectedNext.Some? ==> t.metrics.lastDriftMs == 0)
            && t.timeline.Some? && t.timeline.value.timeBase == TimeBase(1, 48_000)
            && (s.timeline.None? && ticks == 0 ==> t.timeline.value.accepted == 1 && t.timeline.value.offset == 0)
  {
    PacketMilliseconds(ticks);
    hide Milliseconds;
  }

  lemma RunOfTwo(c: Config, a: Op, b: Op)
    requires ValidConfig(c) && OpInRange(a) && OpInRange(b)
    ensures Run(c, [a, b]) == Step(c, Step(c, Session(Fresh(), [], 0, 0, 0), a), b)
  {
    var none: seq<Op> := [];
    assert Run(c, none) == Session(Fresh(), [], 0, 0, 0);
    hide Step, OpInRange;
    OneMoreOp(c, none, a);
    OneMoreOp(c, [a], b);
    hide Run;
    assert none + [a] == [a] && [a] + [b] == [a, b];
  }

  lemma RunOfFour(c: Config, a: Op, b: Op, d: Op, e: Op)
    requires ValidConfig(c) && OpInRange(a) && OpInRange(b) && OpInRange(d) && OpInRange(e)
    ensures Run(c, [a, b, d, e]) == Step(c, Step(c, Step(c, Step(c, Session(Fresh(), [], 0, 0, 0), a), b), d), e)
  {
    hide *;
    RunOfTwo(c, a, b);
    OneMoreOp(c, [a, b], d);
    OneMoreOp(c, [a, b, d], e);
    assert [a, b] + [d] == [a, b, d] && [a, b, d] + [e] == [a, b, d, e];
  }

  /** Frames of twenty milliseconds, a restart, and one more: stamped 0, 20 and 40. */
  lemma RestartAfterTwoFrames(samples: seq<real>)
    requires |samples| == 1920
    ensures var first, second := Process(Packet(0, samples)), Process(Packet(960, samples));
            var x := Run(STEREO_48K, [first, second, ResetSource, first]);
            && |x.log| == 3
            && x.log[0].pts == 0 && x.log[1].pts == 20 && x.log[2].pts == 40
            && x.state.metrics.lastDriftMs == 0
  {
    var first, second := Process(Packet(0, samples)), Process(Packet(960, samples));
    RunOfFour(STEREO_48K, first, second, ResetSource, first);
    var x0 := Session(Fresh(), [], 0, 0, 0);
    hide Processed, Run;
    PacketStep(x0.state, 0, samples, 0);
    var x1 := Step(STEREO_48K, x0, first);
    PacketStep(x1.state, 960, samples, 20);
    var x2 := Step(STEREO_48K, x1, second);
    var x3 := Step(STEREO_48K, x2, ResetSource);
    PacketStep(x3.state, 0, samples, 40);
  }
}
