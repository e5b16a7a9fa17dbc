/** Shaping of delivered capture frames: calibrated, clamped and thinned timestamps. */
module CaptureShaping {
  import opened Common
  import opened MediaClock

  const WGC_TIME_BASE: TimeBase := TimeBase(1, 10_000_000)
  const MAX_TIMESTAMP_JUMP_MS: int := 60_000

  /** The least interval between delivered frames, by target rate. */
  function MinFrameIntervalMs(targetFps: nat): nat {
    match targetFps
    case 30 => 31
    case 60 => 15
    case _ => 0
  }

  datatype Shaper = Shaper(minInterval: nat, timeline: Timeline, lastSource: Option<int>, lastDelivered: Option<int>)

  function Start(targetFps: nat): Shaper {
    Shaper(MinFrameIntervalMs(targetFps), FreshTimeline(WGC_TIME_BASE, MAX_TIMESTAMP_JUMP_MS), None, None)
  }

  datatype Delivery = Delivered(pts: int) | Dropped | BackwardJump(discontinuity: Discontinuity)

  predicate Valid(s: Shaper) {
    && s.timeline.timeBase == WGC_TIME_BASE
    && (s.lastDelivered.Some? ==> s.lastSource.Some? && s.lastDelivered.value <= s.lastSource.value)
  }

  /** The calibrated stamp and timeline; a forward jump restarts the timeline, whose first stamp is zero. */
  function Calibrate(t: Timeline, ticks: int): (r: Result<(int, Timeline), Discontinuity>)
    requires t.timeBase == WGC_TIME_BASE
    ensures r.Ok? ==> r.value.1.timeBase == WGC_TIME_BASE
  {
    match ToShared(t, ticks)
    case Ok(x) => Ok(x)
    case Err(d) =>
      if d.jump > 0 then ToShared(FreshTimeline(WGC_TIME_BASE, MAX_TIMESTAMP_JUMP_MS), ticks) else Err(d)
  }

  /** What one frame event does, and whether it is delivered. */
  function OnFrame(s: Shaper, ticks: int): (r: (Shaper, Delivery))
    requires Valid(s)
    ensures Valid(r.0) && r.0.minInterval == s.minInterval
  {
    match Calibrate(s.timeline, ticks)
    case Err(d) => (s, BackwardJump(d))
    case Ok((shared, timeline)) =>
      var pts := if s.lastSource.Some? then Max(shared, s.lastSource.value) else shared;
      var s1 := s.(timeline := timeline, lastSource := Some(pts));
      if s.minInterval == 0 then (s1, Delivered(pts))
      else if s.lastDelivered.Some? && pts - s.lastDelivered.value < s.minInterval then (s1, Dropped)
      else (s1.(lastDelivered := Some(pts)), Delivered(pts))
  }

  // ---------------------------------------------------------------------------
  // Events.

  datatype Event = Frame(ticks: int) | FormatChanged(width: nat, height: nat) | SourceClosed | Failed

  /** What the caller gets: a frame, a new format, the end of the source or of the stream, or an error. */
  datatype Outcome =
    | FrameOut(pts: int)
    | FormatOut(width: nat, height: nat)
    | SourceLost
    | EndOfStream
    | BackendError

  /** What one event does, and what it makes the caller see, if anything. */
  function OnEvent(s: Shaper, event: Event): (r: (Shaper, Option<Outcome>))
    requires Valid(s)
    ensures Valid(r.0)
  {
    match event
    case Frame(ticks) =>
      var (t, d) := OnFrame(s, ticks);
      (t, match d
          case Delivered(pts) => Some(FrameOut(pts))
          case Dropped => None
          case BackwardJump(_) => Some(BackendError))
    case FormatChanged(width, height) => (s, Some(FormatOut(width, height)))
    case SourceClosed => (s, Some(SourceLost))
    case Failed => (s, Some(BackendError))
  }

  /**
   * What the caller is told: a frame in time by its stamp, one too early not at all, a backward jump
   * as an error, and every other event as what it is; only frames move the shaper.
   */
  lemma EventsAreTold(s: Shaper, ticks: int, width: nat, height: nat)
    requires Valid(s)
    ensures OnEvent(s, FormatChanged(width, height)) == (s, Some(FormatOut(width, height)))
    ensures OnEvent(s, SourceClosed) == (s, Some(SourceLost)) && OnEvent(s, Failed) == (s, Some(BackendError))
    ensures var (t, out) := OnEvent(s, Frame(ticks));
            && t == OnFrame(s, ticks).0
            && (out == Some(BackendError) <==> Calibrate(s.timeline, ticks).Err?)
            && (out == Some(BackendError) ==> t == s)
            && (out.None? <==> OnFrame(s, ticks).1 == Dropped)
            && (forall pts :: out == Some(FrameOut(pts)) <==> OnFrame(s, ticks).1 == Delivered(pts))
            && out != Some(SourceLost) && out != Some(EndOfStream)
  {
    hide Calibrate;
  }

  function AfterEvents(s: Shaper, events: seq<Event>): (r: Shaper)
    requires Valid(s)
    ensures Valid(r)
  {
    if events == [] then s else OnEvent(AfterEvents(s, events[..|events| - 1]), events[|events| - 1]).0
  }

  /** None of the events is passed on. */
  predicate Silent(s: Shaper, events: seq<Event>)
    requires Valid(s)
  {
    events == [] ||
    (Silent(s, events[..|events| - 1])
     && OnEvent(AfterEvents(s, events[..|events| - 1]), events[|events| - 1]).1.None?)
  }

  lemma NoEvents(s: Shaper)
    requires Valid(s)
    ensures AfterEvents(s, []) == s && Silent(s, [])
  {
  }

  lemma OneMoreEvent(s: Shaper, events: seq<Event>, i: nat)
    requires Valid(s) && i < |events|
    ensures var (t, out) := OnEvent(AfterEvents(s, events[..i]), events[i]);
            && AfterEvents(s, events[..i + 1]) == t
            && (Silent(s, events[..i + 1]) <==> Silent(s, events[..i]) && out.None?)
    ensures events[..i + 1][..i] == events[..i]
  {
    assert events[..i + 1][..i] == events[..i];
  }

  /** The ticks of the frames among the events. */
  function FramesOf(events: seq<Event>): seq<int> {
    if events == [] then [] else
    FramesOf(events[..|events| - 1])
    + if events[|events| - 1].Frame? then [events[|events| - 1].ticks] else []
  }

  /** Only frames move the shaper. */
  lemma {:induction false} EventsMoveByFrames(s: Shaper, events: seq<Event>)
    requires Valid(s)
    ensures AfterEvents(s, events) == AfterFrames(s, FramesOf(events)).0
  {
    hide OnFrame;
    if events != [] {
      var front, last := events[..|events| - 1], events[|events| - 1];
      EventsMoveByFrames(s, front);
      var f := FramesOf(events);
      assert last.Frame? ==> f[..|f| - 1] == FramesOf(front);
      assert !last.Frame? ==> f == FramesOf(front);
    }
  }

  class FrameSource {
    var minFrameIntervalMs: nat
    var timeline: Timeline
    var lastSourcePts: Option<int>
    var lastDeliveredPts: Option<int>

    function Abs(): Shaper
      reads this
    {
      Shaper(minFrameIntervalMs, timeline, lastSourcePts, lastDeliveredPts)
    }

    constructor (targetFps: nat)
      ensures Valid(Abs()) && Abs() == Start(targetFps)
    {
      minFrameIntervalMs := MinFrameIntervalMs(targetFps);
      timeline := FreshTimeline(WGC_TIME_BASE, MAX_TIMESTAMP_JUMP_MS);
      lastSourcePts, lastDeliveredPts := None, None;
    }

    /**
     * Receive events until one is to be passed on, or none is queued. `stopped` is the stop flag
     * at each time around, `connected` whether the capture thread still holds its sender.
     */
    method NextEvent(queued: seq<Event>, stopped: nat -> bool, connected: bool) returns (r: Option<Outcome>, used: nat)
      requires Valid(Abs())
      modifies this
      ensures Valid(Abs()) && used <= |queued|
      ensures Abs() == AfterEvents(old(Abs()), queued[..used])
      ensures forall i | 0 <= i < used :: !stopped(i)
      ensures r.None? ==> connected && used == |queued| && !stopped(used) && Silent(old(Abs()), queued)
      ensures r == Some(EndOfStream) ==>
                Silent(old(Abs()), queued[..used]) && (stopped(used) || (used == |queued| && !connected))
      ensures r.Some? && r.value != EndOfStream ==>
                && used >= 1
                && Silent(old(Abs()), queued[..used - 1])
                && OnEvent(AfterEvents(old(Abs()), queued[..used - 1]), queued[used - 1]).1 == r
    {
      hide AfterEvents, Silent;
      ghost var start := Abs();
      used := 0;
      NoEvents(start);
      assert queued[..0] == [];
      while !stopped(used)
        invariant used <= |queued| && Valid(Abs())
        invariant Abs() == AfterEvents(start, queued[..used])
        invariant Silent(start, queued[..used])
        invariant forall i | 0 <= i < used :: !stopped(i)
        decreases |queued| - used
      {
        assert queued[..|queued|] == queued;
        if used == |queued| { return if connected then None else Some(EndOfStream), used; }
        ghost var before := Abs();
        var event := queued[used];
        OneMoreEvent(start, queued, used);
        used := used + 1;
        match event
        case Frame(ticks) =>
          var shaped := ShapeFrame(ticks);
          match shaped {
            case Dropped =>
            case Delivered(pts) => return Some(FrameOut(pts)), used;
            case BackwardJump(_) => return Some(BackendError), used;
          }
        case FormatChanged(width, height) => return Some(FormatOut(width, height)), used;
        case SourceClosed => return Some(SourceLost), used;
        case Failed => return Some(BackendError), used;
      }
      return Some(EndOfStream), used;
    }

    /** One frame: calibrate, clamp, and deliver it unless it comes too early. */
    method ShapeFrame(ticks: int) returns (d: Delivery)
      requires Valid(Abs())
      modifies this
      ensures (Abs(), d) == OnFrame(old(Abs()), ticks)
    {
      var calibrated := Calibrate(timeline, ticks);
      if calibrated.Err? { return BackwardJump(calibrated.error); }
      timeline := calibrated.value.1;
      var pts := calibrated.value.0;
      if lastSourcePts.Some? { pts := Max(pts, lastSourcePts.value); }
      lastSourcePts := Some(pts);
      if minFrameIntervalMs > 0 {
        if lastDeliveredPts.Some? && pts - lastDeliveredPts.value < minFrameIntervalMs { return Dropped; }
        lastDeliveredPts := Some(pts);
      }
      return Delivered(pts);
    }
  }

  // ---------------------------------------------------------------------------
  // Runs of frames.

  /** The shaper after a run of frames, with the delivered timestamps. */
  function AfterFrames(s: Shaper, frames: seq<int>): (r: (Shaper, seq<int>))
    requires Valid(s)
    ensures Valid(r.0) && r.0.minInterval == s.minInterval
  {
    if frames == [] then (s, [])
    else
      var (t, delivered) := AfterFrames(s, frames[..|frames| - 1]);
      var (u, d) := OnFrame(t, frames[|frames| - 1]);
      (u, if d.Delivered? then delivered + [d.pts] else delivered)
  }

  function Deliveries(s: Shaper, frames: seq<int>): seq<int>
    requires Valid(s)
  {
    AfterFrames(s, frames).1
  }

  /** What one frame does to the two remembered times. */
  lemma FrameSpacing(s: Shaper, ticks: int)
    requires Valid(s)
    ensures var (t, d) := OnFrame(s, ticks);
            && (d.Delivered? ==>
                  && (s.minInterval > 0 && s.lastDelivered.Some? ==> d.pts - s.lastDelivered.value >= s.minInterval)
                  && (s.lastSource.Some? ==> s.lastSource.value <= d.pts)
                  && t.lastSource == Some(d.pts)
                  && (s.minInterval > 0 ==> t.lastDelivered == Some(d.pts)))
            && (!d.Delivered? ==>
                  && t.lastDelivered == s.lastDelivered
                  && (s.lastSource.Some? ==> t.lastSource.Some? && s.lastSource.value <= t.lastSource.value))
  {
  }

  lemma OneGapMore(steps: int, gap: nat)
    ensures (steps + 1) * gap == steps * gap + gap
  {
  }

  /** Delivered timestamps never go back, and with a target interval they are at least that far apart. */
  lemma {:induction false} DeliveriesAreSpaced(targetFps: nat, frames: seq<int>)
    ensures var (s, d) := AfterFrames(Start(targetFps), frames);
            && (forall i, j | 0 <= i < j < |d| :: d[j] - d[i] >= (j - i) * MinFrameIntervalMs(targetFps))
            && MinFrameIntervalMs(targetFps) == (if targetFps == 30 then 31 else if targetFps == 60 then 15 else 0)
            && (d != [] ==> s.lastSource.Some? && d[|d| - 1] <= s.lastSource.value)
            && (d != [] && s.minInterval > 0 ==> s.lastDelivered == Some(d[|d| - 1]))
  {
    if frames != [] {
      DeliveriesAreSpaced(targetFps, frames[..|frames| - 1]);
      var (t, delivered) := AfterFrames(Start(targetFps), frames[..|frames| - 1]);
      var (u, d) := AfterFrames(Start(targetFps), frames);
      FrameSpacing(t, frames[|frames| - 1]);
      hide OnFrame, Start;
      var gap := MinFrameIntervalMs(targetFps);
      assert t.minInterval == gap;
      if |d| > |delivered| {
        var n := |delivered|;
        forall i | 0 <= i < n ensures d[n] - d[i] >= (n - i) * gap {
          OneGapMore(n - 1 - i, gap);
          assert i < n - 1 ==> d[n - 1] - d[i] >= (n - 1 - i) * gap;
        }
      }
    }
  }

  lemma {:induction false} FramesAppend(s: Shaper, a: seq<int>, b: seq<int>)
    requires Valid(s)
    ensures var (t, d) := AfterFrames(s, a);
            AfterFrames(s, a + b) == (AfterFrames(t, b).0, d + AfterFrames(t, b).1)
    decreases |b|
  {
    hide OnFrame;
    if b == [] {
      assert a + b == a;
      assert AfterFrames(s, a).1 + [] == AfterFrames(s, a).1;
    } else {
      var front := b[..|b| - 1];
      FramesAppend(s, a, front);
      assert (a + b)[..|a + b| - 1] == a + front;
      assert (a + b)[|a + b| - 1] == b[|b| - 1];
      var (t, delivered) := AfterFrames(s, a);
      var d := OnFrame(AfterFrames(t, front).0, b[|b| - 1]).1;
      assert d.Delivered? ==>
          delivered + AfterFrames(t, front).1 + [d.pts] == delivered + (AfterFrames(t, front).1 + [d.pts]);
    }
  }

  function Out(d: Delivery): seq<int> {
    if d.Delivered? then [d.pts] else []
  }

  lemma OneFrame(s: Shaper, ticks: int)
    requires Valid(s)
    ensures var (t, d) := OnFrame(s, ticks);
            AfterFrames(s, [ticks]) == (t, Out(d))
  {
    var frames, d := [ticks], OnFrame(s, ticks).1;
    assert frames[..|frames| - 1] == [];
    assert AfterFrames(s, []) == (s, []);
    assert d.Delivered? ==> [] + [d.pts] == [d.pts];
  }

  lemma TwoMoreFrames(s: Shaper, frames: seq<int>, first: int, second: int)
    requires Valid(s)
    ensures var (t, d) := OnFrame(AfterFrames(s, frames).0, first);
            Deliveries(s, frames + [first, second])
            == Deliveries(s, frames) + Out(d) + Out(OnFrame(t, second).1)
  {
    hide OnFrame, Out;
    var t := AfterFrames(s, frames).0;
    OneFrame(t, first);
    OneFrame(OnFrame(t, first).0, second);
    FramesAppend(s, frames, [first]);
    FramesAppend(s, frames + [first], [second]);
    hide AfterFrames;
    assert frames + [first] + [second] == frames + [first, second];
  }

  // ---------------------------------------------------------------------------
  // Forward jumps.

  /** Nothing newer than the interval allows has been seen since the last delivery. */
  predicate Waiting(s: Shaper) {
    && Valid(s)
    && s.minInterval > 0
    && s.lastDelivered.Some?
    && 0 <= s.lastSource.value < s.lastDelivered.value + s.minInterval
  }

  /** A stream that has accepted a stamp is waiting for the next interval when it is thinned, in every run. */
  lemma {:induction false} ReachedStates(targetFps: nat, frames: seq<int>)
    ensures var s := AfterFrames(Start(targetFps), frames).0;
            && (s.timeline.accepted > 0 <==> s.lastSource.Some?)
            && (s.lastSource.Some? ==> s.lastSource.value >= 0)
            && (s.lastSource.Some? && s.minInterval > 0 ==> Waiting(s))
  {
    if frames != [] { ReachedStates(targetFps, frames[..|frames| - 1]); }
  }

  /**
   * A waiting stream delivers the next frame exactly when its calibrated stamp has passed the last
   * delivery by the interval.
   */
  lemma DeliveredExactlyWhen(s: Shaper, ticks: int)
    requires Waiting(s) && Calibrate(s.timeline, ticks).Ok?
    ensures var (t, d) := OnFrame(s, ticks);
            var stamp := Calibrate(s.timeline, ticks).value.0;
            if stamp - s.lastDelivered.value >= s.minInterval then d == Delivered(stamp)
            else d == Dropped && Waiting(t) && t.lastDelivered == s.lastDelivered
  {
  }

  /** Every frame of the run is stamped below the bound. */
  predicate StampsBelow(s: Shaper, frames: seq<int>, bound: int)
    requires Valid(s)
  {
    frames == [] ||
    (var last, front := frames[|frames| - 1], frames[..|frames| - 1];
     && StampsBelow(s, front, bound)
     && Calibrate(AfterFrames(s, front).0.timeline, last).Ok?
     && Calibrate(AfterFrames(s, front).0.timeline, last).value.0 < bound)
  }

  predicate ForwardJump(s: Shaper, ticks: int)
    requires Valid(s)
  {
    ToShared(s.timeline, ticks).Err? && ToShared(s.timeline, ticks).error.jump > 0
  }

  /** A forward jump restarts the timeline at zero and keeps the old maximum. */
  lemma JumpRestarts(s: Shaper, jump: int)
    requires Valid(s) && ForwardJump(s, jump)
    ensures Calibrate(s.timeline, jump).Ok? && Calibrate(s.timeline, jump).value.0 == 0
    ensures s.timeline.accepted > 0
  {
  }

  /**
   * Over every run of a thinned stream: a forward jump delivers nothing, and neither does any frame
   * after it, until the restarted clock has passed the last delivery by the interval; the first
   * frame stamped that late is delivered.
   */
  lemma ForwardJumpStalls(targetFps: nat, frames: seq<int>, jump: int, later: seq<int>, next: int)
    requires MinFrameIntervalMs(targetFps) > 0
    requires ForwardJump(AfterFrames(Start(targetFps), frames).0, jump)
    ensures AfterFrames(Start(targetFps), frames).0.lastDelivered.Some?
    ensures var (s, delivered) := AfterFrames(Start(targetFps), frames);
            var bound := s.lastDelivered.value + s.minInterval;
            var t := OnFrame(s, jump).0;
            StampsBelow(t, later, bound) ==>
              && Deliveries(Start(targetFps), frames + [jump] + later) == delivered
              && var u := AfterFrames(t, later).0;
                 Calibrate(u.timeline, next).Ok? ==>
                   (OnFrame(u, next).1.Delivered? <==> Calibrate(u.timeline, next).value.0 >= bound)
  {
    var s := AfterFrames(Start(targetFps), frames).0;
    ReachedStates(targetFps, frames);
    JumpRestarts(s, jump);
    WaitingStalls(s, jump, later, next);
    JumpInRun(Start(targetFps), frames, jump, later);
    hide AfterFrames, OnFrame, Calibrate, ForwardJump, StampsBelow, Start;
    assert Deliveries(Start(targetFps), frames) + [] + [] == Deliveries(Start(targetFps), frames);
  }

  lemma JumpInRun(s: Shaper, frames: seq<int>, jump: int, later: seq<int>)
    requires Valid(s)
    ensures var (t, d) := OnFrame(AfterFrames(s, frames).0, jump);
            Deliveries(s, frames + [jump] + later) == Deliveries(s, frames) + Out(d) + Deliveries(t, later)
  {
    hide OnFrame, Out;
    OneFrame(AfterFrames(s, frames).0, jump);
    FramesAppend(s, frames, [jump]);
    FramesAppend(s, frames + [jump], later);
    hide AfterFrames;
  }

  /** The stall of a waiting stream, and its exact end. */
  lemma WaitingStalls(s: Shaper, jump: int, later: seq<int>, next: int)
    requires Waiting(s) && ForwardJump(s, jump)
    ensures OnFrame(s, jump).1 == Dropped
    ensures var bound := s.lastDelivered.value + s.minInterval;
            var t := OnFrame(s, jump).0;
            StampsBelow(t, later, bound) ==>
              && Deliveries(t, later) == []
              && var u := AfterFrames(t, later).0;
                 Calibrate(u.timeline, next).Ok? ==>
                   (OnFrame(u, next).1.Delivered? <==> Calibrate(u.timeline, next).value.0 >= bound)
  {
    JumpRestarts(s, jump);
    DeliveredExactlyWhen(s, jump);
    var t := OnFrame(s, jump).0;
    hide OnFrame, Calibrate, AfterFrames, ForwardJump;
    if StampsBelow(t, later, s.lastDelivered.value + s.minInterval) {
      StaysWaiting(t, later);
      var u := AfterFrames(t, later).0;
      hide StampsBelow;
      if Calibrate(u.timeline, next).Ok? { DeliveredExactlyWhen(u, next); }
    }
  }

  lemma {:induction false} StaysWaiting(s: Shaper, frames: seq<int>)
    requires Waiting(s) && StampsBelow(s, frames, s.lastDelivered.value + s.minInterval)
    ensures Deliveries(s, frames) == []
    ensures Waiting(AfterFrames(s, frames).0) && AfterFrames(s, frames).0.lastDelivered == s.lastDelivered
    ensures AfterFrames(s, frames).0.minInterval == s.minInterval
    decreases |frames|
  {
    hide OnFrame, Calibrate;
    if frames != [] {
      var front := frames[..|frames| - 1];
      StaysWaiting(s, front);
      DeliveredExactlyWhen(AfterFrames(s, front).0, frames[|frames| - 1]);
    }
  }

  function Repeated(x: int, n: nat): (r: seq<int>)
    ensures |r| == n
  {
    seq(n, _ => x)
  }

  /**
   * Over every run of a stream that is not thinned: a forward jump is delivered with the old maximum
   * as its time, and so is every frame after it, until the restarted clock has passed that maximum;
   * the first frame stamped later moves on.
   */
  lemma ForwardJumpFreezes(targetFps: nat, frames: seq<int>, jump: int, later: seq<int>, next: int)
    requires MinFrameIntervalMs(targetFps) == 0
    requires ForwardJump(AfterFrames(Start(targetFps), frames).0, jump)
    ensures AfterFrames(Start(targetFps), frames).0.lastSource.Some?
    ensures var (s, delivered) := AfterFrames(Start(targetFps), frames);
            var frozen := s.lastSource.value;
            var t := OnFrame(s, jump).0;
            StampsBelow(t, later, frozen + 1) ==>
              && Deliveries(Start(targetFps), frames + [jump] + later) == delivered + Repeated(frozen, 1 + |later|)
              && var u := AfterFrames(t, later).0;
                 Calibrate(u.timeline, next).Ok? ==>
                   OnFrame(u, next).1 == Delivered(Max(Calibrate(u.timeline, next).value.0, frozen))
  {
    var s := AfterFrames(Start(targetFps), frames).0;
    ReachedStates(targetFps, frames);
    JumpRestarts(s, jump);
    var frozen := s.lastSource.value;
    var (t, d) := OnFrame(s, jump);
    assert d == Delivered(frozen) && t.lastSource == Some(frozen) && t.minInterval == 0;
    JumpInRun(Start(targetFps), frames, jump, later);
    if StampsBelow(t, later, frozen + 1) {
      StaysFrozen(t, later);
      hide AfterFrames, StampsBelow;
      assert [frozen] + Repeated(frozen, |later|) == Repeated(frozen, 1 + |later|);
      var before := Deliveries(Start(targetFps), frames);
      assert before + [frozen] + Repeated(frozen, |later|) == before + ([frozen] + Repeated(frozen, |later|));
    }
  }

  lemma {:induction false} StaysFrozen(s: Shaper, frames: seq<int>)
    requires Valid(s) && s.minInterval == 0 && s.lastSource.Some?
    requires StampsBelow(s, frames, s.lastSource.value + 1)
    ensures Deliveries(s, frames) == Repeated(s.lastSource.value, |frames|)
    ensures AfterFrames(s, frames).0.lastSource == s.lastSource
    decreases |frames|
  {
    if frames != [] {
      var front := frames[..|frames| - 1];
      StaysFrozen(s, front);
      assert Repeated(s.lastSource.value, |frames|) == Repeated(s.lastSource.value, |front|) + [s.lastSource.value];
    }
  }

  // ---------------------------------------------------------------------------
  // A stall as long as the session.

  const MINUTE_TICKS: int := 600_000_000
  const MINUTE_MS: int := 60_000

  /** One frame a minute, from the start. */
  function Minutes(n: nat): seq<int> {
    seq(n, i requires 0 <= i < n => i * MINUTE_TICKS)
  }

  /** The shaper after the frame of minute `n`. */
  function AtMinute(n: nat): (s: Shaper)
    ensures Valid(s)
  {
    var last := n * MINUTE_MS;
    Shaper(15, Timeline(WGC_TIME_BASE, 0, n + 1, last, MAX_TIMESTAMP_JUMP_MS), Some(last), Some(last))
  }

  lemma {:induction false} AfterMinutes(n: nat)
    ensures AfterFrames(Start(60), Minutes(n + 1)).0 == AtMinute(n)
  {
    FirstMinute();
    if n == 0 {
      OneFrame(Start(60), 0);
      assert Minutes(1) == [0];
    } else {
      AfterMinutes(n - 1);
      NextMinute(n);
      FramesAppend(Start(60), Minutes(n), [n * MINUTE_TICKS]);
      OneFrame(AtMinute(n - 1), n * MINUTE_TICKS);
      hide AfterFrames, OnFrame, AtMinute;
      assert Minutes(n + 1) == Minutes(n) + [n * MINUTE_TICKS];
    }
  }

  lemma FirstMinute()
    ensures OnFrame(Start(60), 0).0 == AtMinute(0)
  {
  }

  lemma NextMinute(n: nat)
    requires n >= 1
    ensures OnFrame(AtMinute(n - 1), n * MINUTE_TICKS).0 == AtMinute(n)
  {
    MinuteStamp(n);
    hide Milliseconds;
  }

  lemma MinuteStamp(n: nat)
    ensures Milliseconds(n * MINUTE_TICKS, WGC_TIME_BASE) == n * MINUTE_MS
  {
    assert n * MINUTE_TICKS * 1 * 1_000 == n * MINUTE_MS * 10_000_000;
  }

  /** After `n` minutes of frames and a pause just over a minute, the stream stays silent for another `n` minutes. */
  lemma StallLastsAsLongAsTheSession(n: nat, ms: nat)
    requires n >= 1 && ms > 0
    ensures var jump := (n * MINUTE_MS + MINUTE_MS + 1) * 10_000;
            var before := Minutes(n + 1);
            var after := before + [jump, jump + ms * 10_000];
            Deliveries(Start(60), after) == Deliveries(Start(60), before) <==> ms < n * MINUTE_MS + 15
  {
    var jump := (n * MINUTE_MS + MINUTE_MS + 1) * 10_000;
    AfterMinutes(n);
    AfterPause(n, ms);
    TwoMoreFrames(Start(60), Minutes(n + 1), jump, jump + ms * 10_000);
    hide AfterFrames, Minutes, OnFrame, AtMinute;
    var delivered := Deliveries(Start(60), Minutes(n + 1));
    assert delivered + [] + [] == delivered && |delivered + [] + [ms]| > |delivered|;
  }

  /** The frame at the jump is dropped; the next one too, unless the restarted clock has passed the old maximum. */
  lemma AfterPause(n: nat, ms: nat)
    requires n >= 1 && ms > 0
    ensures var jump := (n * MINUTE_MS + MINUTE_MS + 1) * 10_000;
            var (t, d) := OnFrame(AtMinute(n), jump);
            d == Dropped
            && OnFrame(t, jump + ms * 10_000).1 == if ms < n * MINUTE_MS + 15 then Dropped else Delivered(ms)
  {
    var pause := n * MINUTE_MS + MINUTE_MS + 1;
    assert Milliseconds(pause * 10_000, WGC_TIME_BASE) == pause;
    assert Milliseconds(pause * 10_000 + ms * 10_000, WGC_TIME_BASE) == pause + ms;
    hide Milliseconds;
  }

  /** An hour of frames, a pause, and then fifty-nine minutes and more in which a frame is dropped. */
  lemma HourLongStall()
    ensures var jump := 3_660_001 * 10_000;
            var late := jump + 3_599_000 * 10_000;
            Deliveries(Start(60), Minutes(61) + [jump, late]) == Deliveries(Start(60), Minutes(61))
  {
    StallLastsAsLongAsTheSession(60, 3_599_000);
  }

  lemma TwoFrames(s: Shaper, first: int, second: int)
    requires Valid(s)
    ensures var (t, d) := OnFrame(s, first);
            var (u, e) := OnFrame(t, second);
            AfterFrames(s, [first, second]) == (u, Out(d) + Out(e))
  {
    hide OnFrame, Out;
    var t := OnFrame(s, first).0;
    OneFrame(s, first);
    OneFrame(t, second);
    FramesAppend(s, [first], [second]);
    hide AfterFrames;
    assert [first] + [second] == [first, second];
  }

  /** Without thinning: two frames a minute apart, a pause, and two frames at the time of the last one before it. */
  lemma FrozenMinute()
    ensures Deliveries(Start(120), [0, MINUTE_TICKS] + [1_200_010_000, 1_210_010_000])
            == [0, 60_000] + [60_000] + [60_000]
  {
    FrozenFrames();
    TwoFrames(Start(120), 0, MINUTE_TICKS);
    TwoMoreFrames(Start(120), [0, MINUTE_TICKS], 1_200_010_000, 1_210_010_000);
    hide AfterFrames, OnFrame, Start;
    assert [0] + [60_000] == [0, 60_000];
  }

  lemma FrozenFrames()
    ensures var (s0, d0) := OnFrame(Start(120), 0);
            var (s1, d1) := OnFrame(s0, MINUTE_TICKS);
            var (s2, d2) := OnFrame(s1, 1_200_010_000);
            var d3 := OnFrame(s2, 1_210_010_000).1;
            d0 == Delivered(0) && d1 == d2 == d3 == Delivered(60_000)
  {
  }
}
